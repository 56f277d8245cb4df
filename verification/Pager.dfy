/** The per-user solution pager: two global maps written by fetch completions and page clicks. */
module Pager {
  import opened Options
  import opened Decimal
  import opened Buttons
  import opened Pages
  import Fences

  datatype State = State(pages: map<UserId, SolutionList>, current: map<UserId, int>)

  function Solutions(st: State, u: UserId): SolutionList {
    if u in st.pages then st.pages[u] else []
  }

  function Page(st: State, u: UserId): int {
    if u in st.current then st.current[u] else 0
  }

  /** The conversion of a signed number for a comparison with `size_t`. */
  function AsSize(n: int): nat {
    n % 0x1_0000_0000_0000_0000
  }

  /** The bounded page move; `prev` and `next` tell which prefix the id starts with. */
  function Move(prev: bool, next: bool, page: int, size: nat): int {
    if prev && page > 0 then page - 1
    else if next && AsSize((page + 1) * 1) < size then page + 1
    else page
  }

  /** Turning a page; looking the user up in either map adds an entry. */
  function Turn(st: State, u: UserId, prev: bool, next: bool): State {
    var solutions := Solutions(st, u);
    State(st.pages[u := solutions], st.current[u := Move(prev, next, Page(st, u), |solutions|)])
  }

  /** The click is on a page button and comes from the user encoded in it. */
  predicate IsOwn(clicker: UserId, press: Press) {
    press.PageTurn? && press.owner == Value(clicker)
  }

  function Click(st: State, clicker: UserId, press: Press): State {
    if IsOwn(clicker, press) then Turn(st, clicker, press.prev, !press.prev) else st
  }

  /** First write of a fetch completion. */
  function Install(st: State, u: UserId, solutions: SolutionList): State {
    st.(pages := st.pages[u := solutions])
  }

  /** Second write of a fetch completion. */
  function Reset(st: State, u: UserId): State {
    st.(current := st.current[u := 0])
  }

  datatype Reply = Ignored | Threw(error: Parsed) | NotYours | Shows(content: string, prevId: string, nextId: string)

  // ----- the solution list of a fetch -----

  datatype Post = Post(id: Field<int>, status: Field<string>, creationDate: Field<int>, voteCount: Field<int>, content: Field<string>)

  /** An element of the list; anything that is not an object, null included, throws when a field is read. */
  datatype RawSolution = RawSolution(title: Field<string>, post: Field<Post>) | NotAnObject

  function TextOr(t: Field<string>): string {
    if t.Is? then t.v else ""
  }

  /** Reading the post does not throw; a null text reads empty, a null number throws. */
  predicate PostReadable(p: Post) {
    p.id.Is? && !p.status.Wrong? && p.creationDate.Is? && p.voteCount.Is? && !p.content.Wrong?
  }

  /** The title is read even when there is no post. */
  predicate Readable(raw: RawSolution) {
    raw.RawSolution? && !raw.title.Wrong? && !raw.post.Wrong? && (raw.post.Is? ==> PostReadable(raw.post.v))
  }

  function Converted(raw: RawSolution, slug: string): Solution
    requires Readable(raw) && raw.post.Is?
  {
    var p := raw.post.v;
    Solution(TextOr(raw.title), Fences.RemoveNewLines(TextOr(p.content), slug), TextOr(p.status),
             p.voteCount.v, p.id.v, p.creationDate.v)
  }

  /** The posts that are present, in order. */
  function Collected(raws: seq<RawSolution>, slug: string): (r: seq<Solution>)
    requires forall raw :: raw in raws ==> Readable(raw)
    ensures |r| <= |raws|
  {
    if raws == [] then []
    else
      assert Readable(raws[0]);
      if raws[0].post.Absent? then Collected(raws[1..], slug)
      else [Converted(raws[0], slug)] + Collected(raws[1..], slug)
  }

  lemma {:induction false} CollectedSnoc(raws: seq<RawSolution>, raw: RawSolution, slug: string)
    requires Readable(raw) && forall x :: x in raws ==> Readable(x)
    ensures Collected(raws + [raw], slug)
         == Collected(raws, slug) + if raw.post.Absent? then [] else [Converted(raw, slug)]
  {
    if raws == [] {
      assert [] + [raw] == [raw];
    } else {
      assert (raws + [raw])[0] == raws[0] && (raws + [raw])[1..] == raws[1..] + [raw];
      CollectedSnoc(raws[1..], raw, slug);
    }
  }

  /** The loop of the fetch completion; `None` when reading a field throws. */
  method CollectSolutions(raws: seq<RawSolution>, slug: string) returns (r: Option<seq<Solution>>)
    ensures r.Some? <==> forall raw :: raw in raws ==>
              && raw.RawSolution? && !raw.title.Wrong? && !raw.post.Wrong?
              && (raw.post.Is? ==> raw.post.v.id.Is? && raw.post.v.creationDate.Is? && raw.post.v.voteCount.Is?
                                   && !raw.post.v.status.Wrong? && !raw.post.v.content.Wrong?)
    ensures r.Some? <==> forall raw :: raw in raws ==> Readable(raw)
    ensures r.Some? ==> r.value == Collected(raws, slug)
  {
    var list := [];
    for n := 0 to |raws|
      invariant forall raw :: raw in raws[..n] ==> Readable(raw)
      invariant list == Collected(raws[..n], slug)
    {
      var raw := raws[n];
      assert raws[..n + 1] == raws[..n] + [raw];
      if raw.NotAnObject? || raw.title.Wrong? {
        assert !Readable(raw);
        return None;
      }
      if !raw.post.Absent? {
        if raw.post.Wrong? {
          assert !Readable(raw);
          return None;
        }
        var post := raw.post.v;
        if !post.id.Is? || post.status.Wrong? || !post.creationDate.Is? || !post.voteCount.Is? || post.content.Wrong? {
          assert !Readable(raw);
          return None;
        }
        var content := Fences.RemoveNewLines(TextOr(post.content), slug);
        list := list + [Solution(TextOr(raw.title), content, TextOr(post.status), post.voteCount.v, post.id.v, post.creationDate.v)];
      }
      CollectedSnoc(raws[..n], raw, slug);
    }
    assert raws[..|raws|] == raws;
    r := Some(list);
  }

  /** Where each field of a stored solution comes from; a null text reads empty. */
  lemma ConvertedByField(raw: RawSolution, slug: string)
    requires Readable(raw) && raw.post.Is?
    ensures var post, s := raw.post.v, Converted(raw, slug);
            && post.id == Is(s.id) && post.creationDate == Is(s.creationDate) && post.voteCount == Is(s.voteCount)
            && s.title == (if raw.title.Is? then raw.title.v else "")
            && s.status == (if post.status.Is? then post.status.v else "")
            && s.content == Fences.RemoveNewLines(if post.content.Is? then post.content.v else "", slug)
  {
  }

  predicate HasPost(raw: RawSolution) {
    raw.RawSolution? && raw.post.Is?
  }

  /** The element at each of the positions, converted. */
  ghost predicate ConvertedAt(raws: seq<RawSolution>, at: seq<nat>, list: seq<Solution>, slug: string) {
    && |at| == |list|
    && forall i :: 0 <= i < |at| ==>
         at[i] < |raws| && Readable(raws[at[i]]) && HasPost(raws[at[i]]) && list[i] == Converted(raws[at[i]], slug)
  }

  /** The positions are those of all posts, in order. */
  ghost predicate AllPosts(raws: seq<RawSolution>, at: seq<nat>) {
    && (forall i, j :: 0 <= i < j < |at| ==> at[i] < at[j])
    && (forall i :: 0 <= i < |at| ==> at[i] < |raws|)
    && (forall k :: 0 <= k < |raws| && HasPost(raws[k]) ==> k in at)
  }

  lemma AppendConverted(raws: seq<RawSolution>, at: seq<nat>, list: seq<Solution>, slug: string, raw: RawSolution)
    requires ConvertedAt(raws, at, list, slug) && Readable(raw)
    ensures HasPost(raw) ==> ConvertedAt(raws + [raw], at + [|raws|], list + [Converted(raw, slug)], slug)
    ensures ConvertedAt(raws + [raw], at, list, slug)
  {
    assert forall k :: 0 <= k < |raws| ==> (raws + [raw])[k] == raws[k];
  }

  lemma AppendPost(raws: seq<RawSolution>, at: seq<nat>, raw: RawSolution)
    requires AllPosts(raws, at)
    ensures HasPost(raw) ==> AllPosts(raws + [raw], at + [|raws|])
    ensures !HasPost(raw) ==> AllPosts(raws + [raw], at)
  {
    assert forall k :: 0 <= k < |raws| ==> (raws + [raw])[k] == raws[k];
    assert forall k :: k in at ==> k in at + [|raws|];
  }

  lemma AppendOrigin(raws: seq<RawSolution>, at: seq<nat>, list: seq<Solution>, slug: string, raw: RawSolution) returns (next: seq<nat>)
    requires ConvertedAt(raws, at, list, slug) && AllPosts(raws, at) && Readable(raw)
    ensures ConvertedAt(raws + [raw], next, list + (if raw.post.Absent? then [] else [Converted(raw, slug)]), slug)
    ensures AllPosts(raws + [raw], next)
  {
    AppendConverted(raws, at, list, slug, raw);
    AppendPost(raws, at, raw);
    if HasPost(raw) {
      next := at + [|raws|];
    } else {
      next := at;
      assert list + [] == list;
    }
  }

  lemma {:induction false} Origins(raws: seq<RawSolution>, slug: string, list: seq<Solution>) returns (at: seq<nat>)
    requires forall raw :: raw in raws ==> Readable(raw)
    requires list == Collected(raws, slug)
    ensures ConvertedAt(raws, at, list, slug) && AllPosts(raws, at)
    decreases |raws|
  {
    at := [];
    if raws != [] {
      var before, raw := raws[..|raws| - 1], raws[|raws| - 1];
      assert raws == before + [raw] && raw in raws;
      var collected := Collected(before, slug);
      at := Origins(before, slug, collected);
      CollectedSnoc(before, raw, slug);
      at := AppendOrigin(before, at, collected, slug, raw);
    }
  }

  /** The stored solutions are those elements that have a post, in order. */
  lemma CollectedInOrder(raws: seq<RawSolution>, slug: string) returns (at: seq<nat>)
    requires forall raw :: raw in raws ==> Readable(raw)
    ensures |at| == |Collected(raws, slug)|
    ensures forall i :: 0 <= i < |at| ==>
              at[i] < |raws| && Readable(raws[at[i]]) && raws[at[i]].post.Is? && Collected(raws, slug)[i] == Converted(raws[at[i]], slug)
    ensures forall i, j :: 0 <= i < j < |at| ==> at[i] < at[j]
    ensures forall k :: 0 <= k < |raws| && raws[k].RawSolution? && raws[k].post.Is? ==> k in at
  {
    at := Origins(raws, slug, Collected(raws, slug));
    assert forall k :: 0 <= k < |raws| && raws[k].RawSolution? && raws[k].post.Is? ==> HasPost(raws[k]);
  }

  ghost predicate CleanContent(s: Solution) {
    Fences.EscapeFree(s.content) && Fences.FencesLabelled(s.content)
  }

  /** Whatever the posts contain, stored solutions have labelled fences and no control escapes. */
  lemma {:induction false} CollectedIsClean(raws: seq<RawSolution>, slug: string)
    requires Fences.WordSlug(slug) && forall raw :: raw in raws ==> Readable(raw)
    ensures forall s :: s in Collected(raws, slug) ==> CleanContent(s)
  {
    if raws != [] {
      assert Readable(raws[0]);
      CollectedIsClean(raws[1..], slug);
      if raws[0].post.Is? {
        Fences.Cleaned(TextOr(raws[0].post.v.content), slug);
      }
    }
  }

  // ----- the maps -----

  class PerUserPages {
    var userSolutionPages: map<UserId, SolutionList>
    var solutionCurrentPage: map<UserId, int>

    function Snapshot(): State
      reads this
    {
      State(userSolutionPages, solutionCurrentPage)
    }

    /** Every stored page is a non-negative `int` whose successor is one too. */
    ghost predicate Valid()
      reads this
    {
      forall u :: u in solutionCurrentPage ==> 0 <= solutionCurrentPage[u] < INT_MAX
    }

    constructor ()
      ensures Valid() && Snapshot() == State(map[], map[])
    {
      userSolutionPages, solutionCurrentPage := map[], map[];
    }

    method HandlePageButton(clicker: UserId, customId: string) returns (reply: Reply)
      requires Valid()
      modifies this
      ensures Valid()
      ensures Snapshot() == Click(old(Snapshot()), clicker, PressOf(customId))
      ensures reply.Ignored? <==> PressOf(customId).OtherButton?
      ensures reply.Threw? <==> PressOf(customId).PageTurn? && !PressOf(customId).owner.Value?
      ensures reply.Threw? ==> reply.error == PressOf(customId).owner
      ensures reply.NotYours? <==>
                PressOf(customId).PageTurn? && PressOf(customId).owner.Value? && PressOf(customId).owner.id != clicker
      ensures reply.Shows? ==> reply.prevId == "solution_prev_page:" + ToString(clicker) && PressOf(reply.prevId) == PageTurn(true, Value(clicker))
      ensures reply.Shows? ==> reply.nextId == "solution_next_page:" + ToString(clicker) && PressOf(reply.nextId) == PageTurn(false, Value(clicker))
      ensures reply.Shows? ==> Page(Snapshot(), clicker) >= 0
      ensures reply.Shows? ==> reply.content == PageContent(Solutions(Snapshot(), clicker), Page(Snapshot(), clicker))
    {
      if !(PREV_PAGE <= customId) && !(NEXT_PAGE <= customId) {
        return Ignored;
      }
      var owner := OwnerOf(customId);
      if !owner.Value? {
        return Threw(owner);
      }
      if clicker != owner.id {
        return NotYours;
      }
      PageDirection(customId);
      reply := ShowTurned(clicker, PREV_PAGE <= customId, NEXT_PAGE <= customId);
    }

    /** The answer to a click of the owner: the page after the move, with new buttons. */
    method ShowTurned(user: UserId, prev: bool, next: bool) returns (reply: Reply)
      requires Valid()
      modifies this
      ensures Valid() && Snapshot() == Turn(old(Snapshot()), user, prev, next) && Page(Snapshot(), user) >= 0
      ensures reply.Shows? && reply.content == PageContent(Solutions(Snapshot(), user), Page(Snapshot(), user))
      ensures reply.prevId == "solution_prev_page:" + ToString(user) && PressOf(reply.prevId) == PageTurn(true, Value(user))
      ensures reply.nextId == "solution_next_page:" + ToString(user) && PressOf(reply.nextId) == PageTurn(false, Value(user))
    {
      var content := TurnPage(user, prev, next);
      GeneratedPresses(user);
      reply := Shows(content, PrevId(user), NextId(user));
    }

    /** The move and the new text, once the click is known to be the owner's. */
    method TurnPage(user: UserId, prev: bool, next: bool) returns (content: string)
      requires Valid()
      modifies this
      ensures Valid() && Page(Snapshot(), user) >= 0
      ensures var list := if user in old(userSolutionPages) then old(userSolutionPages)[user] else [];
              var page := if user in old(solutionCurrentPage) then old(solutionCurrentPage)[user] else 0;
              && userSolutionPages == old(userSolutionPages)[user := list]
              && solutionCurrentPage == old(solutionCurrentPage)[user :=
                   if prev && page > 0 then page - 1 else if next && page + 1 < |list| then page + 1 else page]
      ensures Snapshot() == Turn(old(Snapshot()), user, prev, next)
      ensures content == PageContent(Solutions(Snapshot(), user), Page(Snapshot(), user))
    {
      MovePage(user, prev, next);
      content := BuildSolutionsPage(userSolutionPages[user], solutionCurrentPage[user]);
    }

    /** The move through the references to the two map entries. */
    method MovePage(user: UserId, prev: bool, next: bool)
      requires Valid()
      modifies this
      ensures Valid() && user in userSolutionPages && user in solutionCurrentPage
      ensures var list := if user in old(userSolutionPages) then old(userSolutionPages)[user] else [];
              var page := if user in old(solutionCurrentPage) then old(solutionCurrentPage)[user] else 0;
              && userSolutionPages == old(userSolutionPages)[user := list]
              && solutionCurrentPage == old(solutionCurrentPage)[user :=
                   if prev && page > 0 then page - 1 else if next && page + 1 < |list| then page + 1 else page]
      ensures Snapshot() == Turn(old(Snapshot()), user, prev, next)
    {
      var solutions := Solutions(Snapshot(), user);
      var currentPage := Page(Snapshot(), user);
      MoveBounds(prev, next, currentPage, |solutions|);
      userSolutionPages := userSolutionPages[user := solutions];
      if prev && currentPage > 0 {
        currentPage := currentPage - 1;
      } else if next && AsSize((currentPage + 1) * 1) < |solutions| {
        currentPage := currentPage + 1;
      }
      solutionCurrentPage := solutionCurrentPage[user := currentPage];
    }

    method InstallSolutions(user: UserId, solutions: SolutionList)
      requires Valid()
      modifies this`userSolutionPages
      ensures Valid() && Snapshot() == Install(old(Snapshot()), user, solutions)
    {
      userSolutionPages := userSolutionPages[user := solutions];
    }

    method ResetPage(user: UserId)
      requires Valid()
      modifies this`solutionCurrentPage
      ensures Valid() && Snapshot() == Reset(old(Snapshot()), user)
    {
      solutionCurrentPage := solutionCurrentPage[user := 0];
    }

    /** A fetch completion that runs undisturbed. Nothing is written when the list is empty or when a
        field cannot be read. */
    method CompleteFetch(user: UserId, raws: seq<RawSolution>, slug: string) returns (message: Option<Reply>)
      requires Valid() && |raws| <= INT_MAX
      modifies this
      ensures Valid()
      ensures message.Some? <==> raws != [] && forall raw :: raw in raws ==> Readable(raw)
      ensures message.None? ==> Snapshot() == old(Snapshot())
      ensures message.Some? ==>
                var list := Collected(raws, slug);
                && userSolutionPages == old(userSolutionPages)[user := list] && solutionCurrentPage == old(solutionCurrentPage)[user := 0]
                && Snapshot() == Reset(Install(old(Snapshot()), user, list), user)
                && message.value.Shows? && message.value.content == PageContent(list, 0)
                && message.value.prevId == "solution_prev_page:" + ToString(user) && PressOf(message.value.prevId) == PageTurn(true, Value(user))
                && message.value.nextId == "solution_next_page:" + ToString(user) && PressOf(message.value.nextId) == PageTurn(false, Value(user))
    {
      if raws == [] {
        return None;
      }
      var list := CollectSolutions(raws, slug);
      if list.None? {
        return None;
      }
      InstallSolutions(user, list.value);
      ResetPage(user);
      var text := BuildSolutionsPage(list.value, 0);
      GeneratedPresses(user);
      message := Some(Shows(text, PrevId(user), NextId(user)));
    }

    /** A press of the right arrow of a message. */
    method PressRightArrow(user: UserId, message: Reply) returns (answer: Reply)
      requires Valid() && message.Shows? && PressOf(message.nextId) == PageTurn(false, Value(user))
      requires InRange(Page(Snapshot(), user), |Solutions(Snapshot(), user)|)
      modifies this
      ensures Valid() && InRange(Page(Snapshot(), user), |Solutions(Snapshot(), user)|)
      ensures ViewOf(Snapshot(), user) == old(Forward(ViewOf(Snapshot(), user), 1))
      ensures answer.Shows? && PressOf(answer.nextId) == PageTurn(false, Value(user))
      ensures answer.content == PageContent(Solutions(Snapshot(), user), Page(Snapshot(), user))
    {
      PressMoves(Snapshot(), user, PressOf(message.nextId));
      answer := HandlePageButton(user, message.nextId);
    }

    /** Pressing the right arrow of each new message in turn, `p` times, moves `p` pages on and stops at
        the end of the list. */
    method PressRightArrows(user: UserId, message: Reply, p: nat) returns (last: Reply)
      requires Valid() && message.Shows? && PressOf(message.nextId) == PageTurn(false, Value(user))
      requires InRange(Page(Snapshot(), user), |Solutions(Snapshot(), user)|)
      modifies this
      ensures Valid() && InRange(Page(Snapshot(), user), |Solutions(Snapshot(), user)|)
      ensures ViewOf(Snapshot(), user) == old(Forward(ViewOf(Snapshot(), user), p))
      ensures if p == 0 then last == message else last.Shows? && last.content == PageContent(Solutions(Snapshot(), user), Page(Snapshot(), user))
      decreases p
    {
      last := message;
      if p > 0 {
        ForwardTwice(ViewOf(Snapshot(), user), p - 1);
        var answer := PressRightArrow(user, message);
        last := PressRightArrows(user, answer, p - 1);
      }
    }
  }

  /** `p` pages on, within the list. */
  function Forward(v: View, p: nat): View {
    View(v.list, Clamp(v.page + p, |v.list|))
  }

  lemma ForwardTwice(v: View, p: nat)
    requires InRange(v.page, |v.list|)
    ensures Forward(v, 0) == v && Forward(Forward(v, 1), p) == Forward(v, p + 1)
  {
  }

  /** A press of the right arrow moves one page on within the list. */
  lemma PressMoves(st: State, u: UserId, press: Press)
    requires InRange(Page(st, u), |Solutions(st, u)|) && press == PageTurn(false, Value(u))
    ensures var v := ViewOf(Click(st, u, press), u); v == Forward(ViewOf(st, u), 1) && InRange(v.page, |v.list|)
  {
    TurnOwn(st, u, false, true);
  }

  // ----- interleaved runs -----

  /** A fetch is identified by a number; its two writes are separate steps. A click says who clicked and
      what the button's id decodes to. */
  datatype Step =
    | WriteSolutions(fetch: nat, user: UserId, solutions: SolutionList)
    | WritePage(fetch: nat)
    | PageClick(clicker: UserId, press: Press)

  /** The maps, the user of every fetch that has begun to write, the fetches that have not yet reset
      the page, and who wrote each user's list last. */
  datatype Config = Config(st: State, user: map<nat, UserId>, pending: set<nat>, writer: map<UserId, nat>)

  const START := Config(State(map[], map[]), map[], {}, map[])

  predicate Enabled(c: Config, s: Step) {
    match s
    case WriteSolutions(f, _, _) => f !in c.user
    case WritePage(f) => f in c.pending && f in c.user
    case PageClick(_, _) => true
  }

  function Next(c: Config, s: Step): Config
    requires Enabled(c, s)
  {
    match s
    case WriteSolutions(f, u, list) =>
      Config(Install(c.st, u, list), c.user[f := u], c.pending + {f}, c.writer[u := f])
    case WritePage(f) => c.(st := Reset(c.st, c.user[f]), pending := c.pending - {f})
    case PageClick(clicker, press) => c.(st := Click(c.st, clicker, press))
  }

  ghost predicate IsRun(c: Config, steps: seq<Step>, end: Config)
    decreases |steps|
  {
    if steps == [] then c == end
    else Enabled(c, steps[0]) && IsRun(Next(c, steps[0]), steps[1..], end)
  }

  predicate InRange(page: int, size: nat) {
    0 <= page < (if size == 0 then 1 else size)
  }

  /** The last writer of the user's list has not yet reset the page. */
  predicate InGap(c: Config, u: UserId) {
    u in c.writer && c.writer[u] in c.pending
  }

  ghost predicate Inv(c: Config) {
    && (forall f :: f in c.pending ==> f in c.user)
    && (forall u :: u in c.writer ==> c.writer[u] in c.user && c.user[c.writer[u]] == u)
    && (forall u :: 0 <= Page(c.st, u) < INT_MAX)
    && (forall u :: InRange(Page(c.st, u), |Solutions(c.st, u)|) || InGap(c, u))
  }

  /** Nothing about `u` differs. */
  predicate SameFor(a: State, b: State, u: UserId) {
    && (u in a.pages <==> u in b.pages) && Solutions(a, u) == Solutions(b, u)
    && (u in a.current <==> u in b.current) && Page(a, u) == Page(b, u)
  }

  lemma ClickOthers(st: State, clicker: UserId, press: Press, u: UserId)
    requires u != clicker || !IsOwn(clicker, press)
    ensures SameFor(Click(st, clicker, press), st, u)
  {
  }

  /** The maps after a click, entry by entry: only the owner's entries change, defaults are filled in, and
      the page moves by at most one within the list. */
  lemma ClickByCase(st: State, u: UserId, press: Press)
    requires 0 <= Page(st, u) < INT_MAX
    ensures var list := if u in st.pages then st.pages[u] else [];
            var page := if u in st.current then st.current[u] else 0;
            Click(st, u, press) ==
              if press.PageTurn? && press.owner == Value(u) then
                State(st.pages[u := list],
                      st.current[u := if press.prev then (if page > 0 then page - 1 else page)
                                      else if page + 1 < |list| then page + 1 else page])
              else st
  {
  }

  lemma TurnOwn(st: State, u: UserId, prev: bool, next: bool)
    ensures var t := Turn(st, u, prev, next);
            && Solutions(t, u) == Solutions(st, u)
            && Page(t, u) == Move(prev, next, Page(st, u), |Solutions(st, u)|)
  {
  }

  lemma MoveBounds(prev: bool, next: bool, page: int, size: nat)
    requires 0 <= page < INT_MAX && size <= INT_MAX
    ensures 0 <= Move(prev, next, page, size) < INT_MAX
    ensures InRange(page, size) ==> InRange(Move(prev, next, page, size), size)
  {
  }

  lemma StepKeepsInv(c: Config, s: Step)
    requires Inv(c) && Enabled(c, s)
    ensures Inv(Next(c, s))
  {
    var d := Next(c, s);
    forall u: UserId
      ensures 0 <= Page(d.st, u) < INT_MAX && (InRange(Page(d.st, u), |Solutions(d.st, u)|) || InGap(d, u))
    {
      assert 0 <= Page(c.st, u) < INT_MAX;
      assert InRange(Page(c.st, u), |Solutions(c.st, u)|) || InGap(c, u);
      if s.PageClick? {
        if u == s.clicker && IsOwn(u, s.press) {
          TurnOwn(c.st, u, s.press.prev, !s.press.prev);
          MoveBounds(s.press.prev, !s.press.prev, Page(c.st, u), |Solutions(c.st, u)|);
        } else {
          ClickOthers(c.st, s.clicker, s.press, u);
        }
      }
    }
  }

  lemma {:induction false} RunKeepsInv(c: Config, steps: seq<Step>, end: Config)
    requires Inv(c) && IsRun(c, steps, end)
    ensures Inv(end)
    decreases |steps|
  {
    if steps != [] {
      StepKeepsInv(c, steps[0]);
      RunKeepsInv(Next(c, steps[0]), steps[1..], end);
    }
  }

  /** In every run, whatever the interleaving of fetches and clicks, no page is negative or overflows,
      and a page is outside its list only between the two writes of the list's last writer. */
  lemma OutOfRangeOnlyInGap(steps: seq<Step>, end: Config, u: UserId)
    requires IsRun(START, steps, end)
    ensures 0 <= Page(end.st, u) < INT_MAX
    ensures !InRange(Page(end.st, u), |Solutions(end.st, u)|) ==> InGap(end, u)
  {
    RunKeepsInv(START, steps, end);
    assert 0 <= Page(end.st, u) < INT_MAX;
    assert InRange(Page(end.st, u), |Solutions(end.st, u)|) || InGap(end, u);
  }

  /** The gap is real: a second, shorter list leaves the page outside until the reset. */
  lemma GapIsReachable(u: UserId, a: Solution) returns (steps: seq<Step>, end: Config)
    ensures IsRun(START, steps, end) && !InRange(Page(end.st, u), |Solutions(end.st, u)|)
  {
    var before, c := SecondPage(u, a);
    var s := WriteSolutions(1, u, [a]);
    end := Next(c, s);
    steps := before + [s];
    RunSnoc(START, before, c, s);
  }

  /** Two solutions and one click on next: the second page. */
  lemma SecondPage(u: UserId, a: Solution) returns (steps: seq<Step>, end: Config)
    ensures IsRun(START, steps, end) && Page(end.st, u) == 1 && 1 !in end.user
  {
    var s0, s1, s2 := WriteSolutions(0, u, [a, a]), WritePage(0), PageClick(u, PageTurn(false, Value(u)));
    var c0 := START;
    steps := [];
    RunSnoc(c0, steps, c0, s0);
    var c1 := Next(c0, s0);
    steps := steps + [s0];
    RunSnoc(c0, steps, c1, s1);
    var c2 := Next(c1, s1);
    steps := steps + [s1];
    RunSnoc(c0, steps, c2, s2);
    end := Next(c2, s2);
    steps := steps + [s2];
    TurnOwn(c2.st, u, false, true);
    assert Solutions(c2.st, u) == [a, a] && Page(c2.st, u) == 0;
  }

  lemma {:induction false} RunSnoc(c: Config, steps: seq<Step>, end: Config, s: Step)
    requires IsRun(c, steps, end) && Enabled(end, s)
    ensures IsRun(c, steps + [s], Next(end, s))
    decreases |steps|
  {
    if steps == [] {
      assert [] + [s] == [s] && [s][1..] == [];
    } else {
      assert (steps + [s])[0] == steps[0] && (steps + [s])[1..] == steps[1..] + [s];
      RunSnoc(Next(c, steps[0]), steps[1..], end, s);
    }
  }

  // ----- what is stored -----

  ghost predicate StoresClean(st: State) {
    forall u, i :: u in st.pages && 0 <= i < |st.pages[u]| ==> CleanContent(st.pages[u][i])
  }

  /** The list of a fetch: converted posts under a slug of the language menu. */
  ghost predicate FromFetch(s: Step) {
    s.WriteSolutions? ==>
      exists raws, slug :: Fences.WordSlug(slug) && (forall raw :: raw in raws ==> Readable(raw)) && s.solutions == Collected(raws, slug)
  }

  /** In every run of fetches and clicks, every stored solution has labelled fences and no escapes. */
  lemma {:induction false} RunStoresClean(c: Config, steps: seq<Step>, end: Config)
    requires StoresClean(c.st) && IsRun(c, steps, end) && forall s :: s in steps ==> FromFetch(s)
    ensures StoresClean(end.st)
    decreases |steps|
  {
    if steps != [] {
      var s := steps[0];
      assert FromFetch(s);
      if s.WriteSolutions? {
        var raws, slug :| Fences.WordSlug(slug) && (forall raw :: raw in raws ==> Readable(raw)) && s.solutions == Collected(raws, slug);
        CollectedIsClean(raws, slug);
      }
      RunStoresClean(Next(c, s), steps[1..], end);
    }
  }

  // ----- one user in an interleaved run -----

  /** What a step can do to one user's entries. */
  datatype Own = Listed(list: SolutionList) | Rewound | Turned(prev: bool)

  /** A step's effect on a user: none for the steps of others and for clicks that are not the user's own. */
  function OwnPart(c: Config, s: Step, u: UserId): Option<Own>
    requires Enabled(c, s)
  {
    match s
    case WriteSolutions(_, v, list) => if v == u then Some(Listed(list)) else None
    case WritePage(f) => if c.user[f] == u then Some(Rewound) else None
    case PageClick(v, press) => if v == u && IsOwn(u, press) then Some(Turned(press.prev)) else None
  }

  /** The user's own parts of a run, in order. */
  function OwnParts(c: Config, steps: seq<Step>, u: UserId): seq<Own>
    decreases |steps|
  {
    if steps == [] || !Enabled(c, steps[0]) then []
    else
      var rest := OwnParts(Next(c, steps[0]), steps[1..], u);
      match OwnPart(c, steps[0], u) case None => rest case Some(o) => [o] + rest
  }

  datatype View = View(list: SolutionList, page: int)

  function ViewOf(st: State, u: UserId): View {
    View(Solutions(st, u), Page(st, u))
  }

  function Clamp(x: int, size: nat): int {
    if x < 0 || size == 0 then 0 else if x >= size then size - 1 else x
  }

  function Delta(prev: bool): int {
    if prev then -1 else 1
  }

  /** A page inside its list moves by one, clamped to the list; a page outside only moves back. */
  function Shift(page: int, prev: bool, size: nat): int {
    if InRange(page, size) then Clamp(page + Delta(prev), size)
    else if prev then page - 1
    else page
  }

  function Follow(v: View, o: Own): View {
    match o
    case Listed(list) => v.(list := list)
    case Rewound => v.(page := 0)
    case Turned(prev) => v.(page := Shift(v.page, prev, |v.list|))
  }

  function FollowAll(v: View, os: seq<Own>): View
    decreases |os|
  {
    if os == [] then v else FollowAll(Follow(v, os[0]), os[1..])
  }

  lemma OthersChangeNothing(c: Config, s: Step, u: UserId)
    requires Enabled(c, s) && OwnPart(c, s, u) == None
    ensures SameFor(Next(c, s).st, c.st, u)
  {
    if s.PageClick? {
      ClickOthers(c.st, s.clicker, s.press, u);
    }
  }

  lemma MoveShifts(prev: bool, page: int, size: nat)
    requires 0 <= page < INT_MAX && size <= INT_MAX
    ensures Move(prev, !prev, page, size) == Shift(page, prev, size)
  {
  }

  lemma OwnTurnShifts(c: Config, press: Press, u: UserId)
    requires Inv(c) && IsOwn(u, press)
    ensures ViewOf(Click(c.st, u, press), u) == Follow(ViewOf(c.st, u), Turned(press.prev))
  {
    assert 0 <= Page(c.st, u) < INT_MAX;
    MoveShifts(press.prev, Page(c.st, u), |Solutions(c.st, u)|);
    TurnOwn(c.st, u, press.prev, !press.prev);
  }

  lemma StepFollows(c: Config, s: Step, u: UserId)
    requires Inv(c) && Enabled(c, s)
    ensures ViewOf(Next(c, s).st, u)
         == match OwnPart(c, s, u) case None => ViewOf(c.st, u) case Some(o) => Follow(ViewOf(c.st, u), o)
  {
    if OwnPart(c, s, u).None? {
      OthersChangeNothing(c, s, u);
    } else if s.PageClick? {
      OwnTurnShifts(c, s.press, u);
    }
  }

  /** In every interleaving a user's list and page are the fold of the user's own writes and turns. */
  lemma {:induction false} RunFollows(c: Config, steps: seq<Step>, end: Config, u: UserId)
    requires Inv(c) && IsRun(c, steps, end)
    ensures ViewOf(end.st, u) == FollowAll(ViewOf(c.st, u), OwnParts(c, steps, u))
    decreases |steps|
  {
    if steps != [] {
      var next, part := Next(c, steps[0]), OwnPart(c, steps[0], u);
      StepKeepsInv(c, steps[0]);
      StepFollows(c, steps[0], u);
      RunFollows(next, steps[1..], end, u);
      if part.Some? {
        assert ([part.value] + OwnParts(next, steps[1..], u))[1..] == OwnParts(next, steps[1..], u);
      }
    }
  }

  /** Whatever others do in a run, their fetches included, a user with no part in it keeps every entry. */
  lemma {:induction false} Isolation(c: Config, steps: seq<Step>, end: Config, u: UserId)
    requires IsRun(c, steps, end) && OwnParts(c, steps, u) == []
    ensures SameFor(end.st, c.st, u)
    decreases |steps|
  {
    if steps != [] {
      OthersChangeNothing(c, steps[0], u);
      Isolation(Next(c, steps[0]), steps[1..], end, u);
    }
  }

  /** Exactly which step takes a page out of its list, and which brings it back. */
  lemma RangeChangesIff(c: Config, s: Step, u: UserId)
    requires Inv(c) && Enabled(c, s)
    ensures var v, w := ViewOf(c.st, u), ViewOf(Next(c, s).st, u);
            var fits := s.WriteSolutions? && InRange(v.page, |s.solutions|);
            var own := OwnPart(c, s, u);
            && (InRange(v.page, |v.list|) ==>
                 (!InRange(w.page, |w.list|) <==> own.Some? && own.value.Listed? && !fits))
            && (!InRange(v.page, |v.list|) ==>
                 (InRange(w.page, |w.list|) <==>
                    own.Some? && (own.value.Rewound? || (own.value.Listed? && fits) ||
                                  (own.value == Turned(true) && InRange(v.page - 1, |v.list|)))))
  {
    StepFollows(c, s, u);
    assert 0 <= Page(c.st, u) < INT_MAX;
  }

  // ----- the clamped walk -----

  ghost predicate OnlyTurns(os: seq<Own>) {
    forall o :: o in os ==> o.Turned?
  }

  function Walk(size: nat, page: int, turns: seq<Own>): int
    requires OnlyTurns(turns)
    decreases |turns|
  {
    if turns == [] then page
    else
      assert turns[0] in turns;
      Walk(size, Clamp(page + Delta(turns[0].prev), size), turns[1..])
  }

  lemma {:induction false} TurnsWalk(v: View, turns: seq<Own>)
    requires OnlyTurns(turns) && InRange(v.page, |v.list|)
    ensures FollowAll(v, turns) == View(v.list, Walk(|v.list|, v.page, turns))
    decreases |turns|
  {
    if turns != [] {
      assert turns[0] in turns;
      TurnsWalk(Follow(v, turns[0]), turns[1..]);
    }
  }

  /** While no list is written for a user, any run walks the user's page by the user's own turns,
      clamped to the list, and leaves the list alone. */
  lemma ClampedWalk(c: Config, steps: seq<Step>, end: Config, u: UserId)
    requires Inv(c) && IsRun(c, steps, end) && InRange(Page(c.st, u), |Solutions(c.st, u)|)
    requires OnlyTurns(OwnParts(c, steps, u))
    ensures Solutions(end.st, u) == Solutions(c.st, u)
    ensures Page(end.st, u) == Walk(|Solutions(c.st, u)|, Page(c.st, u), OwnParts(c, steps, u))
  {
    RunFollows(c, steps, end, u);
    TurnsWalk(ViewOf(c.st, u), OwnParts(c, steps, u));
  }

  /** From the page reset of a fetch on, the walk starts on the first page of the list. */
  lemma WalkAfterFetch(before: seq<Step>, c: Config, f: nat, steps: seq<Step>, end: Config)
    requires IsRun(START, before, c) && Enabled(c, WritePage(f)) && IsRun(Next(c, WritePage(f)), steps, end)
    requires OnlyTurns(OwnParts(Next(c, WritePage(f)), steps, c.user[f]))
    ensures var u, list := c.user[f], Solutions(c.st, c.user[f]);
            && Solutions(end.st, u) == list
            && Page(end.st, u) == Walk(|list|, 0, OwnParts(Next(c, WritePage(f)), steps, u))
  {
    RunKeepsInv(START, before, c);
    StepKeepsInv(c, WritePage(f));
    ClampedWalk(Next(c, WritePage(f)), steps, end, c.user[f]);
  }

  function Copies<T>(x: T, p: nat): seq<T> {
    if p == 0 then [] else [x] + Copies(x, p - 1)
  }

  lemma RunCons(c: Config, s: Step, steps: seq<Step>, end: Config)
    requires Enabled(c, s) && IsRun(Next(c, s), steps, end)
    ensures IsRun(c, [s] + steps, end)
  {
    assert ([s] + steps)[1..] == steps;
  }

  lemma FollowCons(v: View, o: Own, os: seq<Own>)
    ensures FollowAll(v, [o] + os) == FollowAll(Follow(v, o), os)
  {
    assert ([o] + os)[1..] == os;
  }

  lemma {:induction false} TurnsRepeated(c: Config, u: UserId, press: Press, p: nat) returns (end: Config)
    requires Inv(c) && IsOwn(u, press)
    ensures IsRun(c, Copies(PageClick(u, press), p), end)
    ensures ViewOf(end.st, u) == FollowAll(ViewOf(c.st, u), Copies(Turned(press.prev), p))
    decreases p
  {
    end := c;
    if p > 0 {
      var s, o := PageClick(u, press), Turned(press.prev);
      StepKeepsInv(c, s);
      OwnTurnShifts(c, press, u);
      end := TurnsRepeated(Next(c, s), u, press, p - 1);
      RunCons(c, s, Copies(s, p - 1), end);
      FollowCons(ViewOf(c.st, u), o, Copies(o, p - 1));
    }
  }

  lemma {:induction false} TurnsForward(v: View, p: nat)
    requires InRange(v.page, |v.list|)
    ensures FollowAll(v, Copies(Turned(false), p)) == View(v.list, Clamp(v.page + p, |v.list|))
    decreases p
  {
    if p > 0 {
      FollowCons(v, Turned(false), Copies(Turned(false), p - 1));
      TurnsForward(Follow(v, Turned(false)), p - 1);
    }
  }

  lemma ForwardTurns(c: Config, u: UserId, press: Press, p: nat) returns (end: Config)
    requires Inv(c) && InRange(Page(c.st, u), |Solutions(c.st, u)|) && press == PageTurn(false, Value(u))
    ensures IsRun(c, Copies(PageClick(u, press), p), end)
    ensures ViewOf(end.st, u) == View(Solutions(c.st, u), Clamp(Page(c.st, u) + p, |Solutions(c.st, u)|))
  {
    end := TurnsRepeated(c, u, press, p);
    TurnsForward(ViewOf(c.st, u), p);
  }

  /** Pressing the generated next button `p` times moves `p` pages on and stops at the end of the list,
      so every page of every list is reachable. */
  lemma ForwardReaches(c: Config, u: UserId, p: nat) returns (end: Config)
    requires Inv(c) && InRange(Page(c.st, u), |Solutions(c.st, u)|)
    ensures IsRun(c, Copies(PageClick(u, PressOf(NextId(u))), p), end)
    ensures ViewOf(end.st, u) == View(Solutions(c.st, u), Clamp(Page(c.st, u) + p, |Solutions(c.st, u)|))
  {
    GeneratedPresses(u);
    end := ForwardTurns(c, u, PressOf(NextId(u)), p);
  }
}
