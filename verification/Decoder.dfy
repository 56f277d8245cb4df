/** The HTML entity decoder: a loop that jumps past each entity, and what it means. */
module Decoder {
  import opened Options
  import opened Strings

  datatype Entity = Lt | Gt | Amp | Quot | Apos | Nbsp

  function Code(e: Entity): string {
    match e
    case Lt => "&lt;"
    case Gt => "&gt;"
    case Amp => "&amp;"
    case Quot => "&quot;"
    case Apos => "&#39;"
    case Nbsp => "&nbsp;"
  }

  function CharOf(e: Entity): char {
    match e
    case Lt => '<'
    case Gt => '>'
    case Amp => '&'
    case Quot => '\"'
    case Apos => '\''
    case Nbsp => ' '
  }

  lemma CodeShape(e: Entity)
    ensures 4 <= |Code(e)| <= 6
    ensures Code(e)[0] == '&' && Code(e)[|Code(e)| - 1] == ';'
    ensures '&' !in Code(e)[1..] && ';' !in Code(e)[..|Code(e)| - 1]
  {
  }

  lemma CodesDiffer(d: Entity, e: Entity)
    requires Code(d) <= Code(e)
    ensures d == e
  {
    assert Code(d)[1] == Code(e)[1] && Code(d)[2] == Code(e)[2];
  }

  const ENTITIES := [Lt, Gt, Amp, Quot, Apos, Nbsp]

  lemma AllEntities(e: Entity)
    ensures e in ENTITIES
  {
    assert ENTITIES[0] == Lt && ENTITIES[1] == Gt && ENTITIES[2] == Amp;
    assert ENTITIES[3] == Quot && ENTITIES[4] == Apos && ENTITIES[5] == Nbsp;
  }

  /** The first of `es` that is spelled at the front of `s`. */
  function FirstOf(es: seq<Entity>, s: string): Option<Entity> {
    if es == [] then None else if Code(es[0]) <= s then Some(es[0]) else FirstOf(es[1..], s)
  }

  function EntityAt(s: string): Option<Entity> {
    FirstOf(ENTITIES, s)
  }

  lemma {:induction false} FirstOfFinds(es: seq<Entity>, s: string)
    ensures FirstOf(es, s).Some? ==> FirstOf(es, s).value in es && Code(FirstOf(es, s).value) <= s
    ensures FirstOf(es, s).None? ==> forall e :: e in es ==> !(Code(e) <= s)
  {
    if es != [] {
      FirstOfFinds(es[1..], s);
    }
  }

  lemma EntityAtFinds(s: string)
    ensures EntityAt(s).Some? ==> Code(EntityAt(s).value) <= s
    ensures EntityAt(s).None? ==> forall e :: !(Code(e) <= s)
  {
    FirstOfFinds(ENTITIES, s);
    forall e {
      AllEntities(e);
    }
  }

  lemma EntityIsUnique(s: string, e: Entity)
    requires Code(e) <= s
    ensures EntityAt(s) == Some(e)
  {
    EntityAtFinds(s);
    var d := EntityAt(s).value;
    if |Code(d)| <= |Code(e)| {
      assert Code(d) <= Code(e);
      CodesDiffer(d, e);
    } else {
      assert Code(e) <= Code(d);
      CodesDiffer(e, d);
    }
  }

  /** No entity is spelled at the front of `s`. */
  predicate NoEntity(s: string) {
    EntityAt(s).None?
  }

  /** Rewrite entities from the left; the output is never looked at again. */
  function Decode(s: string): string
    decreases |s|
  {
    if s == "" then ""
    else
      match EntityAt(s)
      case Some(e) =>
        assert |Code(e)| > 0 by { EntityAtFinds(s); CodeShape(e); }
        assert Code(e) <= s by { EntityAtFinds(s); }
        [CharOf(e)] + Decode(s[|Code(e)|..])
      case None => [s[0]] + Decode(s[1..])
  }

  lemma DecodeEntity(e: Entity, s: string)
    ensures Decode(Code(e) + s) == [CharOf(e)] + Decode(s)
  {
    EntityIsUnique(Code(e) + s, e);
    DropPast(Code(e), s, 0);
    CodeShape(e);
  }

  lemma DecodeChar(s: string)
    requires s != "" && NoEntity(s)
    ensures Decode(s) == [s[0]] + Decode(s[1..])
  {
  }

  lemma FindSemicolon(s: string, code: string)
    requires code <= s && code != "" && code[|code| - 1] == ';' && ';' !in code[..|code| - 1]
    ensures ';' in s && Find(';', s) == |code| - 1 && s[..|code|] == code
  {
    var n := |code| - 1;
    assert s[..n] == code[..n] && s[n] == ';';
    FindIsFirst(';', s, n);
  }

  /** The character of the entity that is spelled by exactly `code`. */
  function Spelled(es: seq<Entity>, code: string): Option<char> {
    if es == [] then None else if code == Code(es[0]) then Some(CharOf(es[0])) else Spelled(es[1..], code)
  }

  function Lookup(code: string): Option<char> {
    Spelled(ENTITIES, code)
  }

  lemma {:induction false} SpelledFinds(es: seq<Entity>, code: string)
    ensures Spelled(es, code).Some? ==> exists e :: e in es && code == Code(e) && Spelled(es, code).value == CharOf(e)
    ensures Spelled(es, code).None? ==> forall e :: e in es ==> code != Code(e)
  {
    if es != [] {
      SpelledFinds(es[1..], code);
    }
  }

  lemma EntityOf(code: string, c: char) returns (e: Entity)
    requires Lookup(code) == Some(c)
    ensures code == Code(e) && c == CharOf(e)
  {
    SpelledFinds(ENTITIES, code);
    e :| e in ENTITIES && code == Code(e) && c == CharOf(e);
  }

  lemma LookupCode(e: Entity)
    ensures Lookup(Code(e)) == Some(CharOf(e))
  {
    AllEntities(e);
    SpelledFinds(ENTITIES, Code(e));
    var d := EntityOf(Code(e), Lookup(Code(e)).value);
    CodesDiffer(d, e);
  }

  lemma LookupOther(code: string)
    requires forall e :: code != Code(e)
    ensures Lookup(code) == None
  {
    SpelledFinds(ENTITIES, code);
  }

  /** The comparisons of the loop body. */
  method MatchEntity(code: string) returns (c: Option<char>)
    ensures c == Lookup(code)
  {
    if code == "&lt;" { LookupCode(Lt); return Some('<'); }
    if code == "&gt;" { LookupCode(Gt); return Some('>'); }
    if code == "&amp;" { LookupCode(Amp); return Some('&'); }
    if code == "&quot;" { LookupCode(Quot); return Some('\"'); }
    if code == "&#39;" { LookupCode(Apos); return Some('\''); }
    if code == "&nbsp;" { LookupCode(Nbsp); return Some(' '); }
    LookupOther(code);
    c := None;
  }

  /** Position of the first `c` at or after `i`; `|text|` when there is none. */
  function FindFrom(text: string, c: char, i: nat): (k: nat)
    requires i <= |text|
    ensures i <= k <= |text|
    decreases |text| - i
  {
    if i == |text| || text[i] == c then i else FindFrom(text, c, i + 1)
  }

  lemma {:induction false} FindFromIsFind(text: string, c: char, i: nat)
    requires i <= |text|
    ensures FindFrom(text, c, i) == i + Find(c, text[i..])
    decreases |text| - i
  {
    if i < |text| {
      FindFromIsFind(text, c, i + 1);
      assert text[i..][1..] == text[i + 1..];
    }
  }

  /** The branch of the loop body that falls through to copying. */
  predicate FallsThrough(text: string, i: nat)
    requires i < |text|
  {
    text[i] == '&' ==>
      var sec := FindFrom(text, ';', i);
      sec == |text| || Lookup(text[i..sec + 1]).None?
  }

  /** The rounds of the loop from position `i` on, with `out` already written. */
  function Scan(text: string, i: nat, out: string): string
    decreases |text| - i
  {
    if i >= |text| then out
    else if FallsThrough(text, i) then Scan(text, i + 1, out + [text[i]])
    else
      var sec := FindFrom(text, ';', i);
      Scan(text, sec + 1, out + [Lookup(text[i..sec + 1]).value])
  }

  lemma FallsThroughNoEntity(text: string, i: nat)
    requires i < |text| && FallsThrough(text, i)
    ensures NoEntity(text[i..])
  {
    var e := EntityAt(text[i..]);
    EntityAtFinds(text[i..]);
    if e.Some? {
      EntityIsSpelled(text, i, e.value);
    }
  }

  /** An entity that starts at `i` is the slice up to the next `;`. */
  lemma EntityIsSpelled(text: string, i: nat, e: Entity)
    requires i < |text| && Code(e) <= text[i..]
    ensures !FallsThrough(text, i)
  {
    CodeShape(e);
    FindSemicolon(text[i..], Code(e));
    FindFromIsFind(text, ';', i);
    var sec := FindFrom(text, ';', i);
    assert text[i..sec + 1] == Code(e);
    LookupCode(e);
    assert text[i] == '&';
  }

  lemma DecodeSpelled(code: string, c: char, rest: string)
    requires Lookup(code) == Some(c)
    ensures Decode(code + rest) == [c] + Decode(rest)
  {
    var e := EntityOf(code, c);
    DecodeEntity(e, rest);
  }

  lemma Copy(text: string, i: nat, out: string)
    requires i < |text| && FallsThrough(text, i)
    ensures out + Decode(text[i..]) == (out + [text[i]]) + Decode(text[i + 1..])
  {
    var s := text[i..];
    FallsThroughNoEntity(text, i);
    DecodeChar(s);
    assert s[0] == text[i] && s[1..] == text[i + 1..];
    Associate(out, [text[i]], Decode(text[i + 1..]));
  }

  lemma Jump(text: string, i: nat, sec: nat, c: char, out: string)
    requires i <= sec < |text| && Lookup(text[i..sec + 1]) == Some(c)
    ensures out + Decode(text[i..]) == (out + [c]) + Decode(text[sec + 1..])
  {
    SplitAt(text, i, sec + 1);
    DecodeSpelled(text[i..sec + 1], c, text[sec + 1..]);
    Associate(out, [c], Decode(text[sec + 1..]));
  }

  lemma ScanCopies(text: string, i: nat, out: string)
    requires i < |text| && FallsThrough(text, i)
    ensures Scan(text, i, out) == Scan(text, i + 1, out + [text[i]])
  {
  }

  lemma ScanJumps(text: string, i: nat, sec: nat, c: char, out: string)
    requires i < |text| && !FallsThrough(text, i) && sec == FindFrom(text, ';', i) && Lookup(text[i..sec + 1]) == Some(c)
    ensures Scan(text, i, out) == Scan(text, sec + 1, out + [c])
  {
  }

  ghost predicate Refines(text: string, i: nat, out: string)
    requires i <= |text|
  {
    Scan(text, i, out) == out + Decode(text[i..])
  }

  lemma EndRefines(text: string, out: string)
    ensures Refines(text, |text|, out)
  {
    assert text[|text|..] == "" && Decode("") == "" && out + "" == out;
  }

  /** The loop and the rewriting go on alike. */
  ghost predicate SameRound(text: string, i: nat, out: string, k: nat, next: string)
    requires i <= |text| && k <= |text|
  {
    && Scan(text, i, out) == Scan(text, k, next)
    && out + Decode(text[i..]) == next + Decode(text[k..])
  }

  lemma CopyRound(text: string, i: nat, out: string)
    requires i < |text| && FallsThrough(text, i)
    ensures SameRound(text, i, out, i + 1, out + [text[i]])
  {
    ScanCopies(text, i, out);
    Copy(text, i, out);
  }

  /** Where the loop does not fall through, the entity ends at the next `;`. */
  lemma JumpTarget(text: string, i: nat) returns (sec: nat, c: char)
    requires i < |text| && !FallsThrough(text, i)
    ensures sec == FindFrom(text, ';', i) && i <= sec < |text| && Lookup(text[i..sec + 1]) == Some(c)
  {
    sec := FindFrom(text, ';', i);
    c := Lookup(text[i..sec + 1]).value;
  }

  lemma JumpRound(text: string, i: nat, out: string) returns (k: nat, next: string)
    requires i < |text| && !FallsThrough(text, i)
    ensures i < k <= |text| && SameRound(text, i, out, k, next)
  {
    var sec, c := JumpTarget(text, i);
    k, next := sec + 1, out + [c];
    ScanJumps(text, i, sec, c, out);
    Jump(text, i, sec, c, out);
  }

  lemma Round(text: string, i: nat, out: string) returns (k: nat, next: string)
    requires i < |text|
    ensures i < k <= |text| && SameRound(text, i, out, k, next)
  {
    if FallsThrough(text, i) {
      CopyRound(text, i, out);
      k, next := i + 1, out + [text[i]];
    } else {
      k, next := JumpRound(text, i, out);
    }
  }

  /** The jumping scan computes the left-to-right rewriting of what it has not yet read. */
  lemma {:induction false} ScanIsDecode(text: string, i: nat, out: string)
    requires i <= |text|
    ensures Refines(text, i, out)
    decreases |text| - i
  {
    if i == |text| {
      EndRefines(text, out);
    } else {
      var k, next := Round(text, i, out);
      ScanIsDecode(text, k, next);
    }
  }

  method HtmlDecoder(text: string) returns (out: string)
    ensures out == Decode(text)
  {
    out := "";
    var i := 0;
    while i < |text|
      invariant i <= |text| && Scan(text, i, out) == Scan(text, 0, "")
    {
      if text[i] == '&' {
        var sec := FindFrom(text, ';', i);
        if sec < |text| {
          var hit := MatchEntity(text[i..sec + 1]);
          if hit.Some? {
            out := out + [hit.value];
            i := sec + 1;
            continue;
          }
        }
      }
      out := out + [text[i]];
      i := i + 1;
    }
    ScanIsDecode(text, 0, "");
    assert text[0..] == text;
  }

  // ----- round trip -----

  /** A text written with some characters spelled as entities. */
  datatype Piece = Raw(c: char) | Coded(e: Entity)

  predicate Unambiguous(ps: seq<Piece>) {
    forall p :: p in ps && p.Raw? ==> p.c != '&'
  }

  function Encode(ps: seq<Piece>): string {
    if ps == [] then ""
    else (match ps[0] case Raw(c) => [c] case Coded(e) => Code(e)) + Encode(ps[1..])
  }

  function Meaning(ps: seq<Piece>): string {
    if ps == [] then ""
    else (match ps[0] case Raw(c) => [c] case Coded(e) => [CharOf(e)]) + Meaning(ps[1..])
  }

  lemma NoAmpNoEntity(s: string)
    requires s == "" || s[0] != '&'
    ensures NoEntity(s)
  {
    var r := EntityAt(s);
    EntityAtFinds(s);
    if r.Some? {
      CodeShape(r.value);
    }
  }

  lemma DecodePlain(c: char, s: string)
    requires c != '&'
    ensures Decode([c] + s) == [c] + Decode(s)
  {
    NoAmpNoEntity([c] + s);
    DecodeChar([c] + s);
    DropPast([c], s, 0);
  }

  /** Whichever characters are spelled as entities, decoding returns the text. */
  lemma {:induction false} DecodeEncode(ps: seq<Piece>)
    requires Unambiguous(ps)
    ensures Decode(Encode(ps)) == Meaning(ps)
  {
    if ps != [] {
      DecodeEncode(ps[1..]);
      match ps[0]
      case Raw(c) => DecodePlain(c, Encode(ps[1..]));
      case Coded(e) => DecodeEntity(e, Encode(ps[1..]));
    }
  }

  /** Escape the five characters of HTML that need it. */
  function EscapeChar(c: char): Piece {
    if c == '&' then Coded(Amp)
    else if c == '<' then Coded(Lt)
    else if c == '>' then Coded(Gt)
    else if c == '\"' then Coded(Quot)
    else if c == '\'' then Coded(Apos)
    else Raw(c)
  }

  function EscapePieces(s: string): (ps: seq<Piece>)
    ensures Unambiguous(ps) && Meaning(ps) == s
  {
    if s == "" then [] else [EscapeChar(s[0])] + EscapePieces(s[1..])
  }

  /** The text as HTML writes it. */
  function Escape(s: string): string {
    if s == "" then ""
    else if s[0] == '&' then "&amp;" + Escape(s[1..])
    else if s[0] == '<' then "&lt;" + Escape(s[1..])
    else if s[0] == '>' then "&gt;" + Escape(s[1..])
    else if s[0] == '\"' then "&quot;" + Escape(s[1..])
    else if s[0] == '\'' then "&#39;" + Escape(s[1..])
    else [s[0]] + Escape(s[1..])
  }

  lemma {:induction false} EscapeEncodes(s: string)
    ensures Escape(s) == Encode(EscapePieces(s))
    decreases |s|
  {
    if s != "" {
      EscapeEncodes(s[1..]);
      var p, ps := EscapeChar(s[0]), EscapePieces(s[1..]);
      assert ([p] + ps)[0] == p && ([p] + ps)[1..] == ps;
    }
  }

  lemma DecodeEscape(s: string)
    ensures Decode(Escape(s)) == s
  {
    EscapeEncodes(s);
    DecodeEncode(EscapePieces(s));
  }

  /** The six entities, one by one, before any text. */
  lemma DecodeByTable(s: string)
    ensures Decode("&lt;" + s) == "<" + Decode(s)
    ensures Decode("&gt;" + s) == ">" + Decode(s)
    ensures Decode("&amp;" + s) == "&" + Decode(s)
    ensures Decode("&quot;" + s) == "\"" + Decode(s)
    ensures Decode("&#39;" + s) == "'" + Decode(s)
    ensures Decode("&nbsp;" + s) == " " + Decode(s)
  {
    DecodeEntity(Lt, s);
    DecodeEntity(Gt, s);
    DecodeEntity(Amp, s);
    DecodeEntity(Quot, s);
    DecodeEntity(Apos, s);
    DecodeEntity(Nbsp, s);
  }

  /** Where none of the six stands, the character is kept. */
  lemma DecodeKeepsOthers(s: string)
    requires s != "" && !("&lt;" <= s) && !("&gt;" <= s) && !("&amp;" <= s)
    requires !("&quot;" <= s) && !("&#39;" <= s) && !("&nbsp;" <= s)
    ensures Decode(s) == [s[0]] + Decode(s[1..])
  {
    EntityAtFinds(s);
    var r := EntityAt(s);
    if r.Some? {
      SpelledIn(r.value, s);
      assert false;
    }
    DecodeChar(s);
  }

  lemma SpelledIn(e: Entity, s: string)
    requires Code(e) <= s
    ensures "&lt;" <= s || "&gt;" <= s || "&amp;" <= s || "&quot;" <= s || "&#39;" <= s || "&nbsp;" <= s
  {
  }

  // ----- splitting the input -----

  /** `a` breaks off inside an entity. */
  ghost predicate EndsInsideEntity(a: string) {
    exists e: Entity, k :: 0 < k < |Code(e)| && EndsWith(a, Code(e)[..k])
  }

  /** No entity begins in `a` and ends in `b`. */
  ghost predicate Clear(a: string, b: string) {
    forall i, e :: 0 <= i < |a| && Code(e) <= (a + b)[i..] ==> i + |Code(e)| <= |a|
  }

  lemma ClearTail(a: string, b: string, n: nat)
    requires Clear(a, b) && n <= |a|
    ensures Clear(a[n..], b)
  {
    var t := a[n..];
    forall i, e | 0 <= i < |t| && Code(e) <= (t + b)[i..]
      ensures i + |Code(e)| <= |t|
    {
      assert (t + b)[i..] == (a + b)[n + i..];
    }
  }

  lemma {:induction false} DecodeAppend(a: string, b: string)
    requires Clear(a, b)
    ensures Decode(a + b) == Decode(a) + Decode(b)
    decreases |a|
  {
    if a == "" {
      assert a + b == b;
    } else {
      assert (a + b)[0..] == a + b;
      var r := EntityAt(a);
      EntityAtFinds(a);
      if r.Some? {
        var n := |Code(r.value)|;
        var t := a[n..];
        CodeShape(r.value);
        ClearTail(a, b, n);
        DecodeAppend(t, b);
        assert a == Code(r.value) + t;
        DecodeEntity(r.value, t);
        DecodeEntity(r.value, t + b);
        Associate(Code(r.value), t, b);
        Associate([CharOf(r.value)], Decode(t), Decode(b));
      } else {
        ClearNoEntity(a, b);
        ClearTail(a, b, 1);
        DecodeAppend(a[1..], b);
        TailOfConcat(a, b);
        DecodeChar(a + b);
        DecodeChar(a);
        Associate([a[0]], Decode(a[1..]), Decode(b));
      }
    }
  }

  lemma ClearNoEntity(a: string, b: string)
    requires a != "" && Clear(a, b) && NoEntity(a)
    ensures NoEntity(a + b)
  {
    EntityAtFinds(a);
    EntityAtFinds(a + b);
    var r := EntityAt(a + b);
    if r.Some? {
      FrontEntityStays(a, b, r.value);
    }
  }

  lemma FrontEntityStays(a: string, b: string, e: Entity)
    requires a != "" && Clear(a, b) && Code(e) <= a + b
    ensures Code(e) <= a
  {
    assert (a + b)[0..] == a + b;
    assert 0 + |Code(e)| <= |a|;
  }

  lemma InsideOrClear(a: string, b: string)
    requires !EndsInsideEntity(a)
    ensures Clear(a, b)
  {
    forall i, e | 0 <= i < |a| && Code(e) <= (a + b)[i..]
      ensures i + |Code(e)| <= |a|
    {
      if |a| - i < |Code(e)| {
        Straddling(a, b, i, e);
      }
    }
  }

  lemma Straddling(a: string, b: string, i: nat, e: Entity)
    requires i < |a| && Code(e) <= (a + b)[i..] && |a| - i < |Code(e)|
    ensures EndsInsideEntity(a)
    ensures b != "" && b[0] in Code(e)[1..]
  {
    var k := |a| - i;
    assert Code(e)[..k] == (a + b)[i..][..k] == a[i..];
    assert EndsWith(a, Code(e)[..k]);
    assert Code(e)[1..][k - 1] == (a + b)[i..][k] == b[0];
  }

  lemma AmpersandIsClear(a: string, b: string)
    requires b != "" && b[0] == '&'
    ensures Clear(a, b)
  {
    forall i, e | 0 <= i < |a| && Code(e) <= (a + b)[i..]
      ensures i + |Code(e)| <= |a|
    {
      if |a| - i < |Code(e)| {
        CodeShape(e);
        Straddling(a, b, i, e);
      }
    }
  }

  lemma {:induction false} DecodeCopies(s: string)
    requires ';' !in s
    ensures Decode(s) == s
    decreases |s|
  {
    if s != "" {
      var c, t := s[0], s[1..];
      assert s == [c] + t;
      LackingNoEntity(s);
      assert Decode(s) == [c] + Decode(t);
      DecodeCopies(t);
    }
  }

  lemma LackingNoEntity(s: string)
    requires ';' !in s
    ensures NoEntity(s)
  {
    var r := EntityAt(s);
    EntityAtFinds(s);
    if r.Some? {
      EntityHasSemicolon(s, r.value);
    }
  }

  lemma EntityHasSemicolon(s: string, e: Entity)
    requires Code(e) <= s
    ensures ';' in s
  {
    CodeShape(e);
    assert s[|Code(e)| - 1] == ';';
  }

  lemma {:induction false} DecodeAfterPlain(w: string, s: string)
    requires '&' !in w
    ensures Decode(w + s) == w + Decode(s)
    decreases |w|
  {
    if w == "" {
      assert w + s == s;
    } else {
      DecodeAfterPlain(w[1..], s);
      DecodePlain(w[0], w[1..] + s);
      PrependHead(w, w[0], s);
      PrependHead(w, w[0], Decode(s));
    }
  }

  lemma Halves(code: string, x: string, y: string)
    requires code == x + y && x != "" && y != ""
    requires code[0] == '&' && '&' !in code[1..] && ';' !in code[..|code| - 1]
    ensures x[0] == '&' && '&' !in y && ';' !in x
  {
    assert y == code[1..][|x| - 1..] && x == code[..|code| - 1][..|x|];
  }

  /** The two halves of a code: neither decodes to anything but itself. */
  lemma CutCode(e: Entity, x: string, y: string)
    requires x != "" && y != "" && x + y == Code(e)
    ensures x[0] == '&' && Decode(x) == x && '&' !in y && |x| + |y| >= 4
  {
    CodeShape(e);
    Halves(Code(e), x, y);
    DecodeCopies(x);
  }

  lemma DecodeLastPart(p: string, x: string)
    requires x != "" && x[0] == '&' && Decode(x) == x
    ensures |Decode(p + x)| == |Decode(p)| + |x|
  {
    AmpersandIsClear(p, x);
    DecodeAppend(p, x);
  }

  lemma DecodeAroundEntity(p: string, e: Entity, z: string)
    ensures |Decode(p + (Code(e) + z))| == |Decode(p)| + 1 + |Decode(z)|
  {
    CodeShape(e);
    assert (Code(e) + z)[0] == '&';
    AmpersandIsClear(p, Code(e) + z);
    DecodeAppend(p, Code(e) + z);
    DecodeEntity(e, z);
  }

  /** Text cut inside an entity decodes differently from its two parts. */
  lemma CutEntity(p: string, e: Entity, x: string, y: string, z: string)
    requires x != "" && y != "" && x + y == Code(e)
    ensures Decode((p + x) + (y + z)) != Decode(p + x) + Decode(y + z)
  {
    CutCode(e, x, y);
    DecodeLastPart(p, x);
    DecodeAfterPlain(y, z);
    DecodeAroundEntity(p, e, z);
    Regroup(p, x, y, z);
  }

  lemma Regroup(p: string, x: string, y: string, z: string)
    ensures (p + x) + (y + z) == p + ((x + y) + z)
  {
  }

  /** Text that begins in `a` and ends in `b` is cut by the border. */
  lemma CutAt(a: string, b: string, i: nat, code: string) returns (p: string, x: string, y: string, z: string)
    requires i < |a| && code <= (a + b)[i..] && i + |code| > |a|
    ensures x != "" && y != "" && x + y == code && a == p + x && b == y + z
  {
    var k := |a| - i;
    p, x, y, z := a[..i], a[i..], b[..|code| - k], b[|code| - k..];
    assert (a + b)[i..] == x + b;
    assert code == (x + b)[..|code|] == x + y;
  }

  /** Decoding two pieces separately is right if and only if no entity begins in the first and ends in
      the second. */
  lemma DecodeAppendIff(a: string, b: string)
    ensures Decode(a + b) == Decode(a) + Decode(b) <==> Clear(a, b)
  {
    if Clear(a, b) {
      DecodeAppend(a, b);
    } else {
      var i, e :| 0 <= i < |a| && Code(e) <= (a + b)[i..] && i + |Code(e)| > |a|;
      var p, x, y, z := CutAt(a, b, i, Code(e));
      CutEntity(p, e, x, y, z);
    }
  }

  lemma InsideIsNotClear(a: string, e: Entity, k: nat)
    requires 0 < k < |Code(e)| && EndsWith(a, Code(e)[..k])
    ensures !Clear(a, Code(e)[k..])
  {
    var i, b := |a| - k, Code(e)[k..];
    assert (a + b)[i..] == a[i..] + b == Code(e);
  }

  /** Decoding piece by piece is right for every continuation if and only if the first piece does not
      break off inside an entity. */
  lemma HomomorphismIff(a: string)
    ensures (forall b :: Decode(a + b) == Decode(a) + Decode(b)) <==> !EndsInsideEntity(a)
  {
    if EndsInsideEntity(a) {
      var e: Entity, k :| 0 < k < |Code(e)| && EndsWith(a, Code(e)[..k]);
      InsideIsNotClear(a, e, k);
      DecodeAppendIff(a, Code(e)[k..]);
    } else {
      forall b
        ensures Decode(a + b) == Decode(a) + Decode(b)
      {
        InsideOrClear(a, b);
        DecodeAppendIff(a, b);
      }
    }
  }

  /** In particular when every `&` of the first piece has a later `;` in it. */
  lemma ClosedAmpersands(a: string, b: string)
    requires forall i :: 0 <= i < |a| && a[i] == '&' ==> ';' in a[i..]
    ensures Decode(a + b) == Decode(a) + Decode(b)
  {
    if EndsInsideEntity(a) {
      var e: Entity, k :| 0 < k < |Code(e)| && EndsWith(a, Code(e)[..k]);
      CodeShape(e);
      var i := |a| - k;
      assert a[i] == a[i..][0] == Code(e)[0];
      assert forall c :: c in Code(e)[..k] ==> c in Code(e)[..|Code(e)| - 1];
    }
    HomomorphismIff(a);
  }

  /** The reserved capacity suffices, and decoding shrinks the text at most sixfold. */
  lemma {:induction false} DecodeLength(s: string)
    ensures |Decode(s)| <= |s| <= 6 * |Decode(s)|
    decreases |s|
  {
    if s != "" {
      EntityAtFinds(s);
      match EntityAt(s)
      case Some(e) =>
        CodeShape(e);
        DecodeLength(s[|Code(e)|..]);
      case None =>
        DecodeLength(s[1..]);
    }
  }
}
