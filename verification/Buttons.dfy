/** Button ids: the four prefixes, what each handler reads out of an id, and the language menu. */
module Buttons {
  import opened Options
  import opened Strings
  import opened Decimal
  import Fences

  const SOLUTION := "solution_id:"
  const DESCRIPTION := "description_id:"
  const PREV_PAGE := "solution_prev_page:"
  const NEXT_PAGE := "solution_next_page:"
  const PREFIXES := [SOLUTION, DESCRIPTION, PREV_PAGE, NEXT_PAGE]

  predicate IsPageButton(id: string) {
    PREV_PAGE <= id || NEXT_PAGE <= id
  }

  /** No prefix is a prefix of another. */
  lemma PrefixesApart(i: nat, j: nat)
    requires i < |PREFIXES| && j < |PREFIXES| && PREFIXES[i] <= PREFIXES[j]
    ensures i == j
  {
    var p, q := PREFIXES[i], PREFIXES[j];
    assert p[0] == q[0] && p[9] == q[9];
  }

  lemma DiffersAt(p: string, q: string, i: nat, id: string)
    requires i < |p| && i < |q| && p[i] != q[i]
    ensures !(p <= id && q <= id)
  {
  }

  /** A page button turns in exactly one direction. */
  lemma PageDirection(id: string)
    requires IsPageButton(id)
    ensures NEXT_PAGE <= id <==> !(PREV_PAGE <= id)
  {
    DiffersAt(PREV_PAGE, NEXT_PAGE, 9, id);
  }

  /** `id.substr(id.find(':') + 1)`; without a colon the position wraps to 0. */
  function AfterColon(id: string): string {
    if ':' in id then id[Find(':', id) + 1..] else id
  }

  lemma AfterFirstColon(prefix: string, rest: string)
    requires prefix != "" && prefix[|prefix| - 1] == ':' && ':' !in prefix[..|prefix| - 1]
    ensures AfterColon(prefix + rest) == rest
  {
    var id, n := prefix + rest, |prefix| - 1;
    assert id[n] == ':' && id[..n] == prefix[..n];
    FindIsFirst(':', id, n);
    DropPast(prefix, rest, 0);
  }

  lemma PagePrefixShape(prefix: string)
    requires prefix == PREV_PAGE || prefix == NEXT_PAGE
    ensures prefix != "" && prefix[|prefix| - 1] == ':' && ':' !in prefix[..|prefix| - 1]
  {
  }

  function OwnerOf(id: string): Parsed {
    Stoull(AfterColon(id))
  }

  function PrevId(user: UserId): string {
    PREV_PAGE + ToString(user)
  }

  function NextId(user: UserId): string {
    NEXT_PAGE + ToString(user)
  }

  /** A generated page button is recognised, carries its direction, and decodes to its owner. */
  lemma PageIdRoundTrip(user: UserId)
    ensures OwnerOf(PrevId(user)) == OwnerOf(NextId(user)) == Value(user)
    ensures PREV_PAGE <= PrevId(user) && !(NEXT_PAGE <= PrevId(user))
    ensures NEXT_PAGE <= NextId(user) && !(PREV_PAGE <= NextId(user))
  {
    var digits := ToString(user);
    PagePrefixShape(PREV_PAGE);
    PagePrefixShape(NEXT_PAGE);
    AfterFirstColon(PREV_PAGE, digits);
    AfterFirstColon(NEXT_PAGE, digits);
    ReadPrinted(user, "");
    assert digits + "" == digits;
    DiffersAt(PREV_PAGE, NEXT_PAGE, 9, PrevId(user));
    DiffersAt(PREV_PAGE, NEXT_PAGE, 9, NextId(user));
  }

  /** What the id of a clicked button says to the pager. */
  datatype Press = OtherButton | PageTurn(prev: bool, owner: Parsed)

  function PressOf(id: string): Press {
    if IsPageButton(id) then PageTurn(PREV_PAGE <= id, OwnerOf(id)) else OtherButton
  }

  lemma GeneratedPresses(user: UserId)
    ensures PrevId(user) == "solution_prev_page:" + ToString(user)
    ensures NextId(user) == "solution_next_page:" + ToString(user)
    ensures PressOf(PrevId(user)) == PageTurn(true, Value(user))
    ensures PressOf(NextId(user)) == PageTurn(false, Value(user))
  {
    PageIdRoundTrip(user);
  }

  /** What any id says: the prefix gives the direction and the text after it the owner. */
  lemma PressOfPage(rest: string)
    ensures PressOf("solution_prev_page:" + rest) == PageTurn(true, Stoull(rest))
    ensures PressOf("solution_next_page:" + rest) == PageTurn(false, Stoull(rest))
  {
    PagePrefixShape(PREV_PAGE);
    PagePrefixShape(NEXT_PAGE);
    AfterFirstColon(PREV_PAGE, rest);
    AfterFirstColon(NEXT_PAGE, rest);
    DiffersAt(PREV_PAGE, NEXT_PAGE, 9, NEXT_PAGE + rest);
  }

  lemma PressOfOther(id: string)
    ensures PressOf(id) == OtherButton <==> !("solution_prev_page:" <= id) && !("solution_next_page:" <= id)
  {
  }

  /** Two users never share a page button. */
  lemma PageIdsDistinct(a: UserId, b: UserId)
    requires PrevId(a) == PrevId(b) || NextId(a) == NextId(b)
    ensures a == b
  {
    PageIdRoundTrip(a);
    PageIdRoundTrip(b);
  }

  // ----- solution and description buttons -----

  /** `slug.erase(0, slug.find_first_not_of(' '))`. */
  function TrimSpaces(s: string): string {
    if s != "" && s[0] == ' ' then TrimSpaces(s[1..]) else s
  }

  /** The slug that reaches the fetch differs from the one in the id exactly when that begins with a space. */
  lemma {:induction false} TrimSpacesExact(s: string)
    ensures TrimSpaces(s) == s <==> s == "" || s[0] != ' '
    ensures TrimSpaces(s) == "" || TrimSpaces(s)[0] != ' '
    ensures |TrimSpaces(s)| <= |s| && s[|s| - |TrimSpaces(s)|..] == TrimSpaces(s)
    ensures forall i :: 0 <= i < |s| - |TrimSpaces(s)| ==> s[i] == ' '
    decreases |s|
  {
    if s != "" && s[0] == ' ' {
      TrimSpacesExact(s[1..]);
    }
  }

  datatype Action = NoAction | AskLanguage | FetchSolution(slug: string, language: string) | FetchDescription(slug: string)

  /** The action a click calls for, given the clicking user's language. */
  function ActionFor(id: string, language: Option<string>): Action {
    if SOLUTION <= id then
      match language
      case None => AskLanguage
      case Some(l) => FetchSolution(TrimSpaces(id[|SOLUTION|..]), l)
    else if DESCRIPTION <= id then FetchDescription(TrimSpaces(id[|DESCRIPTION|..]))
    else NoAction
  }

  /** Of the two handlers called for every click at most one acts. */
  lemma NeverBothAct(id: string, language: Option<string>)
    ensures ActionFor(id, language) == NoAction || !IsPageButton(id)
  {
    DiffersAt(SOLUTION, PREV_PAGE, 9, id);
    DiffersAt(SOLUTION, NEXT_PAGE, 9, id);
    DiffersAt(DESCRIPTION, PREV_PAGE, 0, id);
    DiffersAt(DESCRIPTION, NEXT_PAGE, 0, id);
  }

  /** A button generated for a slug asks for that slug, unless it begins with a space. */
  lemma SlugRoundTrip(slug: string, language: string)
    ensures ActionFor(SOLUTION + slug, Some(language)) == FetchSolution(slug, language) <==> slug == "" || slug[0] != ' '
    ensures ActionFor(DESCRIPTION + slug, Some(language)) == FetchDescription(slug) <==> slug == "" || slug[0] != ' '
  {
    DropPast(SOLUTION, slug, 0);
    DropPast(DESCRIPTION, slug, 0);
    TrimSpacesExact(slug);
    DiffersAt(SOLUTION, DESCRIPTION, 0, DESCRIPTION + slug);
  }

  // ----- language menu -----

  /** The table, entry by entry. */
  lemma LanguageTable(i: nat)
    requires i < 19
    ensures var names := ["C++", "Java", "Python", "Python3", "C", "C#", "JavaScript", "TypeScript", "PHP", "Swift",
                          "Kotlin", "Dart", "Go", "Ruby", "Scala", "Rust", "Racket", "Erlang", "Elixir"];
            var slugs := ["cpp", "java", "python", "python3", "c", "csharp", "javascript", "typescript", "php", "swift",
                          "kotlin", "dart", "golang", "ruby", "scala", "rust", "racket", "erlang", "elixir"];
            SlugOf(names[i]) == Some(slugs[i])
  {
  }

  /** Nothing else is a language. */
  lemma OtherLanguages(name: string)
    ensures SlugOf(name).Some? <==>
              name in ["C++", "Java", "Python", "Python3", "C", "C#", "JavaScript", "TypeScript", "PHP", "Swift",
                       "Kotlin", "Dart", "Go", "Ruby", "Scala", "Rust", "Racket", "Erlang", "Elixir"]
  {
  }

  function SlugOf(selected: string): (r: Option<string>)
    ensures r.Some? ==> Fences.WordSlug(r.value)
  {
    if selected == "C++" then Some("cpp")
    else if selected == "Java" then Some("java")
    else if selected == "Python" then Some("python")
    else if selected == "Python3" then Some("python3")
    else if selected == "C" then Some("c")
    else if selected == "C#" then Some("csharp")
    else if selected == "JavaScript" then Some("javascript")
    else if selected == "TypeScript" then Some("typescript")
    else if selected == "PHP" then Some("php")
    else if selected == "Swift" then Some("swift")
    else if selected == "Kotlin" then Some("kotlin")
    else if selected == "Dart" then Some("dart")
    else if selected == "Go" then Some("golang")
    else if selected == "Ruby" then Some("ruby")
    else if selected == "Scala" then Some("scala")
    else if selected == "Rust" then Some("rust")
    else if selected == "Racket" then Some("racket")
    else if selected == "Erlang" then Some("erlang")
    else if selected == "Elixir" then Some("elixir")
    else None
  }

  /** The languages the daily-question message offers. */
  const OFFERED := [
    "C++", "Java", "Python", "Python3", "C", "C#", "JavaScript", "TypeScript", "PHP", "Swift",
    "Kotlin", "Dart", "Go", "Ruby", "Scala", "Rust", "Racket", "Erlang", "Elixir"]

  /** Every offered language is accepted by the menu handler. */
  lemma OfferedAreAccepted(i: nat)
    requires i < |OFFERED|
    ensures SlugOf(OFFERED[i]).Some?
  {
  }

  /** The global map from users to language slugs, and the two handlers that use it. */
  class LanguageMenu {
    var userLanguageMap: map<UserId, string>

    ghost predicate Valid()
      reads this
    {
      forall u :: u in userLanguageMap ==> Fences.WordSlug(userLanguageMap[u])
    }

    constructor ()
      ensures Valid() && userLanguageMap == map[]
    {
      userLanguageMap := map[];
    }

    function LanguageOf(user: UserId): Option<string>
      reads this
    {
      if user in userLanguageMap then Some(userLanguageMap[user]) else None
    }

    method HandleDropdown(user: UserId, values: seq<string>) returns (accepted: bool)
      requires Valid() && values != []
      modifies this
      ensures Valid()
      ensures accepted <==> SlugOf(values[0]).Some?
      ensures userLanguageMap == if accepted then old(userLanguageMap)[user := SlugOf(values[0]).value] else old(userLanguageMap)
    {
      var slug := SlugOf(values[0]);
      accepted := slug.Some?;
      if accepted {
        userLanguageMap := userLanguageMap[user := slug.value];
      }
    }

    method HandleSolutionButton(user: UserId, customId: string) returns (action: Action)
      requires Valid()
      ensures action == ActionFor(customId, LanguageOf(user))
      ensures action.AskLanguage? <==> "solution_id:" <= customId && user !in userLanguageMap
      ensures action.FetchSolution? <==> "solution_id:" <= customId && user in userLanguageMap
      ensures action.FetchSolution? ==> action.language == userLanguageMap[user]
      ensures action.FetchSolution? ==> action.slug == TrimSpaces(customId[12..])
      ensures action.FetchDescription? <==> "description_id:" <= customId
      ensures action.FetchDescription? ==> action.slug == TrimSpaces(customId[15..])
      ensures action.FetchSolution? ==> Fences.WordSlug(action.language)
    {
      DiffersAt(SOLUTION, DESCRIPTION, 0, customId);
      if SOLUTION <= customId {
        var slug := TrimSpaces(customId[|SOLUTION|..]);
        if user !in userLanguageMap {
          return AskLanguage;
        }
        action := FetchSolution(slug, userLanguageMap[user]);
      } else if DESCRIPTION <= customId {
        action := FetchDescription(TrimSpaces(customId[|DESCRIPTION|..]));
      } else {
        action := NoAction;
      }
    }
  }
}
