/** Reading a profile response: the statistics loop and the profile it fills in. */
module Stats {
  import opened Options

  datatype UserProfile = UserProfile(
    easySolved: int, mediumSolved: int, hardSolved: int, totalSolved: int, ranking: int, submissions: int,
    realName: string, avatarUrl: string, countryName: string, skillTags: string)

  /** One element of `acSubmissionNum`. */
  datatype Stat = Stat(difficulty: Field<string>, count: Field<int>, submissions: Field<int>)

  predicate Skipped(s: Stat) {
    s.difficulty.Absent? || s.count.Absent? || s.submissions.Absent?
  }

  /** Reading the entry does not throw. The submissions are read for one difficulty only. */
  predicate Readable(s: Stat) {
    !Skipped(s) ==> s.difficulty.Is? && s.count.Is? && (s.difficulty.v == "All" ==> s.submissions.Is?)
  }

  predicate AllReadable(stats: seq<Stat>) {
    forall s :: s in stats ==> Readable(s)
  }

  predicate Has(s: Stat, difficulty: string) {
    !Skipped(s) && s.difficulty == Is(difficulty)
  }

  /** The last entry of a difficulty that is not skipped. */
  function LastOf(stats: seq<Stat>, difficulty: string): (r: Option<Stat>)
    ensures r.Some? ==> r.value in stats && Has(r.value, difficulty)
    ensures r.None? <==> forall s :: s in stats ==> !Has(s, difficulty)
  {
    if stats == [] then None
    else
      var n := |stats| - 1;
      assert stats == stats[..n] + [stats[n]];
      if Has(stats[n], difficulty) then Some(stats[n]) else LastOf(stats[..n], difficulty)
  }

  /** What an entry that is not skipped contributes. */
  function ValueOf(s: Stat): int {
    if s.difficulty == Is("All") then (if s.submissions.Is? then s.submissions.v else 0)
    else if s.count.Is? then s.count.v else 0
  }

  /** The value of the last entry of a difficulty; 0 when there is none. */
  function Tally(stats: seq<Stat>, difficulty: string): int {
    match LastOf(stats, difficulty) case None => 0 case Some(s) => ValueOf(s)
  }

  /** The loop over the statistics; it throws at the first entry that cannot be read. */
  method FoldStats(stats: seq<Stat>) returns (threw: bool, easy: int, medium: int, hard: int, submissions: int)
    ensures threw <==> !AllReadable(stats)
    ensures !threw ==> easy == Tally(stats, "Easy") && medium == Tally(stats, "Medium") && hard == Tally(stats, "Hard")
    ensures !threw ==> submissions == Tally(stats, "All")
  {
    threw, easy, medium, hard, submissions := false, 0, 0, 0, 0;
    for n := 0 to |stats|
      invariant !threw && AllReadable(stats[..n])
      invariant easy == Tally(stats[..n], "Easy") && medium == Tally(stats[..n], "Medium")
      invariant hard == Tally(stats[..n], "Hard") && submissions == Tally(stats[..n], "All")
    {
      var stat := stats[n];
      assert stats[..n + 1][..n] == stats[..n] && stats[..n + 1] == stats[..n] + [stat];
      if Skipped(stat) {
        continue;
      }
      if stat.difficulty.Wrong? || stat.count.Wrong? {
        assert !Readable(stat);
        threw := true;
        return;
      }
      var difficulty, count := stat.difficulty.v, stat.count.v;
      if difficulty == "All" {
        if stat.submissions.Wrong? {
          assert !Readable(stat);
          threw := true;
          return;
        }
        submissions := stat.submissions.v;
      }
      if difficulty == "Easy" {
        easy := count;
      } else if difficulty == "Medium" {
        medium := count;
      } else if difficulty == "Hard" {
        hard := count;
      }
    }
    assert stats[..|stats|] == stats;
  }

  /** An entry that no other of its difficulty follows is the one that counts. */
  lemma {:induction false} LastOfIsLast(stats: seq<Stat>, i: nat, difficulty: string)
    requires i < |stats| && Has(stats[i], difficulty)
    requires forall j :: i < j < |stats| ==> !Has(stats[j], difficulty)
    ensures LastOf(stats, difficulty) == Some(stats[i])
    decreases |stats|
  {
    var n := |stats| - 1;
    if i < n {
      assert !Has(stats[n], difficulty);
      LastOfIsLast(stats[..n], i, difficulty);
    }
  }

  // ----- what counts -----

  predicate Counted(difficulty: string) {
    difficulty == "Easy" || difficulty == "Medium" || difficulty == "Hard" || difficulty == "All"
  }

  /** All entries of a difficulty that is counted contribute the same. */
  ghost predicate Uniform(stats: seq<Stat>) {
    forall a, b, d :: a in stats && b in stats && Counted(d) && Has(a, d) && Has(b, d) ==> ValueOf(a) == ValueOf(b)
  }

  ghost predicate Permutation(a: seq<Stat>, b: seq<Stat>) {
    multiset(a) == multiset(b)
  }

  lemma SameElements(a: seq<Stat>, b: seq<Stat>)
    requires Permutation(a, b)
    ensures forall s :: s in a <==> s in b
  {
    forall s
      ensures s in a <==> s in b
    {
      assert s in a <==> s in multiset(a);
      assert s in b <==> s in multiset(b);
    }
  }

  lemma UniformTally(a: seq<Stat>, b: seq<Stat>, difficulty: string)
    requires Uniform(a) && Permutation(a, b) && Counted(difficulty)
    ensures Tally(a, difficulty) == Tally(b, difficulty)
  {
    SameElements(a, b);
    var x, y := LastOf(a, difficulty), LastOf(b, difficulty);
    assert x.Some? <==> y.Some?;
  }

  /** Any entry can be moved to the end, where it is the one that counts. */
  lemma MoveToEnd(stats: seq<Stat>, x: Stat, difficulty: string) returns (moved: seq<Stat>)
    requires x in stats && Has(x, difficulty)
    ensures Permutation(stats, moved) && Tally(moved, difficulty) == ValueOf(x)
  {
    var i :| 0 <= i < |stats| && stats[i] == x;
    moved := stats[..i] + stats[i + 1..] + [x];
    assert stats == stats[..i] + [x] + stats[i + 1..];
    LastOfIsLast(moved, |moved| - 1, difficulty);
  }

  // ----- the profile -----

  datatype Info = Info(ranking: Field<int>, avatar: Field<string>, realName: Field<string>, country: Field<string>, skillTags: seq<Field<string>>)

  /** A profile response with status 200: `found` tells whether it has a user; `stats` and `info` are
      `None` when that part is null or is not an object. */
  datatype ProfileResponse = ProfileResponse(found: bool, username: Field<string>, stats: Option<seq<Stat>>, info: Option<Info>)

  function OrUnknown(t: Field<string>): string {
    if t.Is? then t.v else "Unknown"
  }

  predicate AllText(tags: seq<Field<string>>) {
    forall t :: t in tags ==> t.Is?
  }

  /** Tags joined by commas; nothing separates leading empty tags. */
  function JoinTags(tags: seq<Field<string>>): string
    requires AllText(tags)
  {
    if tags == [] then ""
    else
      var n := |tags| - 1;
      assert tags[n] in tags;
      var before := JoinTags(tags[..n]);
      (if before == "" then "" else before + ", ") + tags[n].v
  }

  predicate InfoReadable(i: Info) {
    !i.ranking.Wrong? && !i.avatar.Wrong? && !i.realName.Wrong? && !i.country.Wrong? && AllText(i.skillTags)
  }

  /** The response has every part, and nothing that is read from it throws. */
  predicate Complete(r: ProfileResponse) {
    && r.found && !r.username.Wrong? && r.stats.Some? && r.info.Some?
    && InfoReadable(r.info.value)
    && AllReadable(r.stats.value)
  }

  function ProfileOf(r: ProfileResponse): (p: UserProfile)
    requires Complete(r)
    ensures p.totalSolved == p.easySolved + p.mediumSolved + p.hardSolved
  {
    var easy, medium, hard := Tally(r.stats.value, "Easy"), Tally(r.stats.value, "Medium"), Tally(r.stats.value, "Hard");
    var info := r.info.value;
    UserProfile(easy, medium, hard, easy + medium + hard,
                if info.ranking.Is? then info.ranking.v else -1, Tally(r.stats.value, "All"),
                OrUnknown(info.realName), OrUnknown(info.avatar), OrUnknown(info.country),
                if info.skillTags == [] then "None" else JoinTags(info.skillTags))
  }

  /** The entry is not skipped and has the difficulty. */
  lemma HasIff(s: Stat, difficulty: string)
    ensures Has(s, difficulty) <==> s.difficulty == Is(difficulty) && !s.count.Absent? && !s.submissions.Absent?
  {
  }

  /** The value that a difficulty contributes: that of its last entry that is not skipped, or 0. */
  lemma TallyIs(stats: seq<Stat>, difficulty: string, i: nat)
    requires i <= |stats|
    requires forall j :: i < j < |stats| ==> !(stats[j].difficulty == Is(difficulty) && !stats[j].count.Absent? && !stats[j].submissions.Absent?)
    requires i < |stats| ==> Readable(stats[i]) && stats[i].difficulty == Is(difficulty) && !stats[i].count.Absent? && !stats[i].submissions.Absent?
    requires i == |stats| ==> forall s :: s in stats ==> !(s.difficulty == Is(difficulty) && !s.count.Absent? && !s.submissions.Absent?)
    ensures i < |stats| && difficulty != "All" ==> stats[i].count == Is(Tally(stats, difficulty))
    ensures i < |stats| && difficulty == "All" ==> stats[i].submissions == Is(Tally(stats, difficulty))
    ensures i == |stats| ==> Tally(stats, difficulty) == 0
  {
    if i < |stats| {
      forall j | i < j < |stats|
        ensures !Has(stats[j], difficulty)
      {
        HasIff(stats[j], difficulty);
      }
      LastOfIsLast(stats, i, difficulty);
    } else {
      forall s | s in stats
        ensures !Has(s, difficulty)
      {
        HasIff(s, difficulty);
      }
    }
  }

  /** Which number of the profile each difficulty decides. */
  lemma ProfileUsesLastEntries(r: ProfileResponse, i: nat, difficulty: string)
    requires Complete(r) && i <= |r.stats.value|
    requires var stats := r.stats.value;
             && (forall j :: i < j < |stats| ==> !(stats[j].difficulty == Is(difficulty) && !stats[j].count.Absent? && !stats[j].submissions.Absent?))
             && (i < |stats| ==> stats[i].difficulty == Is(difficulty) && !stats[i].count.Absent? && !stats[i].submissions.Absent?)
             && (i == |stats| ==> forall s :: s in stats ==> !(s.difficulty == Is(difficulty) && !s.count.Absent? && !s.submissions.Absent?))
    ensures var stats, p := r.stats.value, ProfileOf(r);
            && (difficulty == "Easy" ==> if i < |stats| then stats[i].count == Is(p.easySolved) else p.easySolved == 0)
            && (difficulty == "Medium" ==> if i < |stats| then stats[i].count == Is(p.mediumSolved) else p.mediumSolved == 0)
            && (difficulty == "Hard" ==> if i < |stats| then stats[i].count == Is(p.hardSolved) else p.hardSolved == 0)
            && (difficulty == "All" ==> if i < |stats| then stats[i].submissions == Is(p.submissions) else p.submissions == 0)
  {
    TallyIs(r.stats.value, difficulty, i);
  }

  // ----- the list of skills -----

  /** Empty tags at the front vanish; every later tag is preceded by a comma. */
  function AfterFirst(tags: seq<Field<string>>): string
    requires AllText(tags)
  {
    if tags == [] then ""
    else
      assert tags[0] in tags;
      ", " + tags[0].v + AfterFirst(tags[1..])
  }

  lemma {:induction false} AfterFirstSnoc(tags: seq<Field<string>>, t: string)
    requires AllText(tags)
    ensures AllText(tags + [Is(t)]) && AfterFirst(tags + [Is(t)]) == AfterFirst(tags) + (", " + t)
  {
    var more := tags + [Is(t)];
    if tags == [] {
      assert more == [Is(t)] && more[1..] == [];
    } else {
      assert more[0] == tags[0] && more[1..] == tags[1..] + [Is(t)];
      AfterFirstSnoc(tags[1..], t);
    }
  }

  /** A tag is added after a comma and a space, or alone when nothing has been written. */
  lemma TagAdded(tags: seq<Field<string>>, t: string)
    requires AllText(tags)
    ensures AllText(tags + [Is(t)])
    ensures JoinTags(tags + [Is(t)]) == if JoinTags(tags) == "" then t else JoinTags(tags) + ", " + t
  {
    assert (tags + [Is(t)])[..|tags|] == tags;
  }

  lemma {:induction false} EmptyTagsVanish(tags: seq<Field<string>>)
    requires forall t :: t in tags ==> t == Is("")
    ensures JoinTags(tags) == ""
    decreases |tags|
  {
    if tags != [] {
      var n := |tags| - 1;
      assert tags[n] in tags;
      assert forall t :: t in tags[..n] ==> t in tags;
      EmptyTagsVanish(tags[..n]);
    }
  }

  lemma FirstTag(front: seq<Field<string>>, first: string)
    requires forall t :: t in front ==> t == Is("")
    ensures AllText(front + [Is(first)]) && JoinTags(front + [Is(first)]) == first
  {
    EmptyTagsVanish(front);
    TagAdded(front, first);
  }

  lemma CommaAdded(joined: string, first: string, w: string, t: string)
    requires joined == first + w
    ensures joined + ", " + t == first + (w + (", " + t)) && (first != "" ==> joined != "")
  {
  }

  lemma NextTag(tags: seq<Field<string>>, first: string, rest: seq<Field<string>>, t: string)
    requires AllText(tags) && AllText(rest) && JoinTags(tags) == first + AfterFirst(rest) && first != ""
    ensures AllText(tags + [Is(t)]) && AllText(rest + [Is(t)])
    ensures JoinTags(tags + [Is(t)]) == first + AfterFirst(rest + [Is(t)])
  {
    CommaAdded(JoinTags(tags), first, AfterFirst(rest), t);
    TagAdded(tags, t);
    AfterFirstSnoc(rest, t);
  }

  lemma SplitLast<T>(start: seq<T>, rest: seq<T>)
    requires rest != []
    ensures rest == rest[..|rest| - 1] + [rest[|rest| - 1]]
    ensures start + rest == (start + rest[..|rest| - 1]) + [rest[|rest| - 1]]
  {
  }

  lemma {:induction false} LaterTags(start: seq<Field<string>>, first: string, rest: seq<Field<string>>)
    requires AllText(start) && JoinTags(start) == first != "" && AllText(rest)
    ensures AllText(start + rest) && JoinTags(start + rest) == first + AfterFirst(rest)
    decreases |rest|
  {
    if rest == [] {
      assert start + rest == start && first + "" == first;
    } else {
      var before, last := rest[..|rest| - 1], rest[|rest| - 1];
      assert last in rest && AllText(before);
      LaterTags(start, first, before);
      NextTag(start + before, first, before, last.v);
      SplitLast(start, rest);
    }
  }

  /** Tags in order: nothing for empty ones at the front, the first other one as it is, and every later
      one, empty or not, after a comma and a space. */
  lemma TagsInOrder(front: seq<Field<string>>, first: string, rest: seq<Field<string>>)
    requires (forall t :: t in front ==> t == Is("")) && first != "" && AllText(rest)
    ensures var tags := front + [Is(first)] + rest;
            AllText(tags) && JoinTags(tags) == first + AfterFirst(rest)
    ensures JoinTags(front) == ""
  {
    EmptyTagsVanish(front);
    FirstTag(front, first);
    LaterTags(front + [Is(first)], first, rest);
  }

  // ----- order -----

  /** The entries in any order give the same profile. */
  ghost predicate SameInAnyOrder(r: ProfileResponse)
    requires Complete(r)
  {
    forall b :: Permutation(r.stats.value, b) ==>
      Complete(r.(stats := Some(b))) && ProfileOf(r.(stats := Some(b))) == ProfileOf(r)
  }

  lemma PermutedIsComplete(r: ProfileResponse, b: seq<Stat>)
    requires Complete(r) && Permutation(r.stats.value, b)
    ensures Complete(r.(stats := Some(b)))
  {
    SameElements(r.stats.value, b);
  }

  lemma UniformIsSame(r: ProfileResponse)
    requires Complete(r) && Uniform(r.stats.value)
    ensures SameInAnyOrder(r)
  {
    var a := r.stats.value;
    forall b | Permutation(a, b)
      ensures Complete(r.(stats := Some(b))) && ProfileOf(r.(stats := Some(b))) == ProfileOf(r)
    {
      PermutedIsComplete(r, b);
      UniformTally(a, b, "Easy");
      UniformTally(a, b, "Medium");
      UniformTally(a, b, "Hard");
      UniformTally(a, b, "All");
    }
  }

  lemma SameIsUniform(r: ProfileResponse, x: Stat, difficulty: string)
    requires Complete(r) && SameInAnyOrder(r) && x in r.stats.value && Counted(difficulty) && Has(x, difficulty)
    ensures ValueOf(x) == Tally(r.stats.value, difficulty)
  {
    var moved := MoveToEnd(r.stats.value, x, difficulty);
    assert Complete(r.(stats := Some(moved)));
  }

  /** The order of the entries does not matter if and only if no difficulty that is counted has two
      entries with different values. */
  lemma OrderIrrelevantIff(r: ProfileResponse)
    requires Complete(r)
    ensures SameInAnyOrder(r) <==> Uniform(r.stats.value)
  {
    if Uniform(r.stats.value) {
      UniformIsSame(r);
    }
    if SameInAnyOrder(r) {
      forall a, b, d | a in r.stats.value && b in r.stats.value && Counted(d) && Has(a, d) && Has(b, d)
        ensures ValueOf(a) == ValueOf(b)
      {
        SameIsUniform(r, a, d);
        SameIsUniform(r, b, d);
      }
    }
  }

  /** The completion up to the update; `None` when a part is missing or reading a field throws. */
  method ReadProfile(r: ProfileResponse) returns (p: Option<UserProfile>)
    ensures p.Some? <==> Complete(r)
    ensures p.Some? <==>
              && r.found && !r.username.Wrong? && r.stats.Some? && r.info.Some?
              && !r.info.value.ranking.Wrong? && !r.info.value.avatar.Wrong? && !r.info.value.realName.Wrong? && !r.info.value.country.Wrong?
              && (forall t :: t in r.info.value.skillTags ==> t.Is?)
              && (forall s :: s in r.stats.value ==>
                    || s.difficulty.Absent? || s.count.Absent? || s.submissions.Absent?
                    || (s.difficulty.Is? && s.count.Is? && (s.difficulty.v == "All" ==> s.submissions.Is?)))
    ensures p.Some? ==> p.value == ProfileOf(r)
    ensures p.Some? ==> p.value.totalSolved == p.value.easySolved + p.value.mediumSolved + p.value.hardSolved
    ensures p.Some? ==>
              var info := r.info.value;
              && (if info.ranking.Is? then p.value.ranking == info.ranking.v else p.value.ranking == -1)
              && (if info.realName.Is? then p.value.realName == info.realName.v else p.value.realName == "Unknown")
              && (if info.avatar.Is? then p.value.avatarUrl == info.avatar.v else p.value.avatarUrl == "Unknown")
              && (if info.country.Is? then p.value.countryName == info.country.v else p.value.countryName == "Unknown")
              && (if info.skillTags == [] then p.value.skillTags == "None" else p.value.skillTags == JoinTags(info.skillTags))
  {
    if !r.found || r.username.Wrong? || r.stats.None? || r.info.None? {
      return None;
    }
    var info := r.info.value;
    if info.ranking.Wrong? || info.avatar.Wrong? || info.realName.Wrong? || info.country.Wrong? {
      return None;
    }
    var ranking := if info.ranking.Is? then info.ranking.v else -1;
    var skillStats := "None";
    if info.skillTags != [] {
      skillStats := "";
      for n := 0 to |info.skillTags|
        invariant AllText(info.skillTags[..n]) && skillStats == JoinTags(info.skillTags[..n])
      {
        assert info.skillTags[..n + 1][..n] == info.skillTags[..n];
        if !info.skillTags[n].Is? {
          return None;
        }
        if skillStats != "" {
          skillStats := skillStats + ", ";
        }
        skillStats := skillStats + info.skillTags[n].v;
      }
      assert info.skillTags[..|info.skillTags|] == info.skillTags;
    }
    var threw, easy, medium, hard, submissions := FoldStats(r.stats.value);
    if threw {
      return None;
    }
    p := Some(UserProfile(easy, medium, hard, easy + medium + hard, ranking, submissions,
      OrUnknown(info.realName), OrUnknown(info.avatar), OrUnknown(info.country), skillStats));
  }
}
