/** Every interleaving of registrations, profile reads and refreshes over the users table. */
module BotRuns {
  import opened Options
  import opened Decimal
  import opened Stats
  import opened UsersTable
  import opened Commands
  import D = Description
  import T = Tokens

  /** A command between two of its database accesses. */
  datatype Command =
    | Verifying(user: UserId, username: string, leetcode: string)   // waits for the description
    | Named(user: UserId, username: string, leetcode: string)       // profile: the stats check is next
    | Cached(user: UserId, username: string, leetcode: string)      // profile: the cached read is next
    | Refreshing(user: UserId, username: string, leetcode: string)  // waits for the profile response

  datatype Event =
    | Inserted(id: string, username: string, leetcode: string, trace: seq<D.Response>)
    | Updated(id: string, profile: UserProfile)
    | Shown(id: string, shown: Option<UserProfile>)

  datatype World = World(table: Table, commands: map<nat, Command>, log: seq<Event>)

  datatype Step =
    | RegisterCommand(cmd: nat, user: UserId, username: string, sub: Option<Subcommand>)
    | DescriptionArrives(cmd: nat, trace: seq<D.Response>)
    | ProfileCommand(cmd: nat, user: UserId, username: string)
    | CheckStats(cmd: nat)
    | ReadCached(cmd: nat)
    | UpdateCommand(cmd: nat, user: UserId, username: string)
    | ResponseArrives(cmd: nat, response: Option<ProfileResponse>)
    | Connection(up: bool)

  const START := World(Table(false, []), map[], [])

  predicate Enabled(w: World, s: Step) {
    match s
    case RegisterCommand(c, _, _, _) => c !in w.commands
    case DescriptionArrives(c, trace) => c in w.commands && w.commands[c].Verifying? && D.Settled(trace, 0).Some?
    case ProfileCommand(c, _, _) => c !in w.commands
    case CheckStats(c) => c in w.commands && w.commands[c].Named?
    case ReadCached(c) => c in w.commands && w.commands[c].Cached?
    case UpdateCommand(c, _, _) => c !in w.commands
    case ResponseArrives(c, _) => c in w.commands && w.commands[c].Refreshing?
    case Connection(_) => true
  }

  function Begin(w: World, cmd: nat, c: Command): World {
    w.(commands := w.commands[cmd := c])
  }

  function End(w: World, cmd: nat): World {
    w.(commands := map c | c in w.commands && c != cmd :: w.commands[c])
  }

  function Describe(w: World, c: Command, trace: seq<D.Response>): World
    requires D.Settled(trace, 0).Some?
  {
    var id, desc := ToString(c.user), D.Settled(trace, 0).value;
    w.(table := Verified(w.table, c.user, c.username, c.leetcode, desc),
       log := if Proves(desc, c.username) && Registers(w.table, id) then w.log + [Inserted(id, c.username, c.leetcode, trace)]
              else w.log)
  }

  function Respond(w: World, c: Command, response: Option<ProfileResponse>): World {
    if response.None? then w
    else
      var id, r := ToString(c.user), response.value;
      w.(table := Refreshed(w.table, c.user, c.username, c.leetcode, r),
         log := if Complete(r) && Updates(w.table, id) then w.log + [Updated(id, ProfileOf(r))] else w.log)
  }

  function Next(w: World, s: Step): World
    requires Enabled(w, s)
  {
    match s
    case RegisterCommand(cmd, user, username, sub) =>
      var r := StartRegister(w.table, user, username, sub);
      if r.Verify? then Begin(w, cmd, Verifying(user, username, r.leetcode)) else w
    case DescriptionArrives(cmd, trace) => End(Describe(w, w.commands[cmd], trace), cmd)
    case ProfileCommand(cmd, user, username) =>
      var name := NameOrEmpty(w.table, ToString(user));
      if name == "" then w else Begin(w, cmd, Named(user, username, name))
    case CheckStats(cmd) =>
      var c := w.commands[cmd];
      Begin(w, cmd, if StatsPresent(w.table, c.username) then Cached(c.user, c.username, c.leetcode)
                    else Refreshing(c.user, c.username, c.leetcode))
    case ReadCached(cmd) =>
      var c := w.commands[cmd];
      End(w.(log := w.log + [Shown(ToString(c.user), LeetcodeProfile(w.table, c.username))]), cmd)
    case UpdateCommand(cmd, user, username) =>
      var name := NameOrEmpty(w.table, ToString(user));
      if name == "" then w else Begin(w, cmd, Refreshing(user, username, name))
    case ResponseArrives(cmd, response) => End(Respond(w, w.commands[cmd], response), cmd)
    case Connection(up) => w.(table := w.table.(connected := up))
  }

  ghost predicate IsRun(w: World, steps: seq<Step>, end: World)
    decreases |steps|
  {
    if steps == [] then w == end else Enabled(w, steps[0]) && IsRun(Next(w, steps[0]), steps[1..], end)
  }

  // ----- history -----

  /** The columns last written for an id; null before the first successful update. */
  function LastColumns(log: seq<Event>, id: string): Columns {
    if log == [] then NULLS
    else
      var e := log[|log| - 1];
      if e.Updated? && e.id == id then Filled(e.profile) else LastColumns(log[..|log| - 1], id)
  }

  /** The last successful update of an id. */
  function LastUpdate(log: seq<Event>, id: string): Option<UserProfile> {
    if log == [] then None
    else
      var e := log[|log| - 1];
      if e.Updated? && e.id == id then Some(e.profile) else LastUpdate(log[..|log| - 1], id)
  }

  lemma {:induction false} ColumnsOfLastUpdate(log: seq<Event>, id: string)
    ensures LastColumns(log, id) == match LastUpdate(log, id) case None => NULLS case Some(p) => Filled(p)
    decreases |log|
  {
    if log != [] {
      ColumnsOfLastUpdate(log[..|log| - 1], id);
    }
  }

  lemma LastAfter(log: seq<Event>, e: Event, id: string)
    ensures LastColumns(log + [e], id) == if e.Updated? && e.id == id then Filled(e.profile) else LastColumns(log, id)
    ensures LastUpdate(log + [e], id) == if e.Updated? && e.id == id then Some(e.profile) else LastUpdate(log, id)
  {
    assert (log + [e])[..|log|] == log;
  }

  /** An insertion with its proof: a settled description that contains the user's token. */
  predicate Justified(e: Event) {
    && e.Inserted?
    && D.Settled(e.trace, 0).Some?
    && Proves(D.Settled(e.trace, 0).value, e.username)
  }

  ghost predicate WellLogged(log: seq<Event>) {
    forall e :: e in log ==>
      (e.Inserted? ==> Justified(e)) &&
      (e.Updated? ==> e.profile.totalSolved == e.profile.easySolved + e.profile.mediumSolved + e.profile.hardSolved)
  }

  // ----- the invariant -----

  ghost predicate UniqueIds(users: seq<Row>) {
    forall i, j :: 0 <= i < j < |users| ==> users[i].discordId != users[j].discordId
  }

  ghost predicate InsertedWith(log: seq<Event>, id: string, leetcode: string) {
    exists e :: e in log && e.Inserted? && e.id == id && e.leetcode == leetcode
  }

  ghost predicate RowOk(log: seq<Event>, r: Row) {
    && r.leetcodeUsername != ""
    && r.stats == LastColumns(log, r.discordId)
    && InsertedWith(log, r.discordId, r.leetcodeUsername)
  }

  predicate CommandOk(users: seq<Row>, c: Command) {
    var stored := StoredName(users, ToString(c.user));
    if c.Verifying? then c.leetcode != "" || stored != "" else c.leetcode == stored != ""
  }

  ghost predicate Inv(w: World) {
    && UniqueIds(w.table.users)
    && (forall r :: r in w.table.users ==> RowOk(w.log, r))
    && (forall c :: c in w.commands ==> CommandOk(w.table.users, w.commands[c]))
    && (forall e :: e in w.log && e.Updated? ==> HasRow(w.table.users, e.id))
    && WellLogged(w.log)
  }

  lemma NameNonEmpty(w: World, id: string)
    requires Inv(w)
    ensures StoredName(w.table.users, id) != "" <==> HasRow(w.table.users, id)
    ensures NameOrEmpty(w.table, id) == if w.table.connected then StoredName(w.table.users, id) else ""
  {
    var i := RowById(w.table.users, id);
    assert i < |w.table.users| ==> w.table.users[i] in w.table.users;
  }

  lemma {:induction false} NoUpdateNoColumns(log: seq<Event>, id: string)
    requires forall e :: e in log ==> !(e.Updated? && e.id == id)
    ensures LastColumns(log, id) == NULLS
    decreases |log|
  {
    if log != [] {
      assert log[|log| - 1] in log;
      NoUpdateNoColumns(log[..|log| - 1], id);
    }
  }

  lemma {:induction false} LastUpdateIsLogged(log: seq<Event>, id: string)
    requires LastUpdate(log, id).Some?
    ensures Updated(id, LastUpdate(log, id).value) in log
    decreases |log|
  {
    var e := log[|log| - 1];
    if !(e.Updated? && e.id == id) {
      LastUpdateIsLogged(log[..|log| - 1], id);
    }
  }

  // ----- insertion -----

  lemma InsertKeepsNames(users: seq<Row>, r: Row, id: string)
    requires !HasRow(users, r.discordId)
    ensures StoredName(users + [r], id) == if id == r.discordId then r.leetcodeUsername else StoredName(users, id)
    ensures HasRow(users + [r], id) <==> HasRow(users, id) || id == r.discordId
  {
    var i := RowById(users, id);
    RowByIdIs(users + [r], id, if i < |users| || id == r.discordId then i else i + 1);
  }

  lemma InsertKeepsUnique(users: seq<Row>, r: Row)
    requires UniqueIds(users) && !HasRow(users, r.discordId)
    ensures UniqueIds(users + [r])
  {
  }

  /** Events that are not updates leave the columns of every row as they are. */
  lemma LogKeepsRow(log: seq<Event>, e: Event, r: Row)
    requires RowOk(log, r) && (e.Updated? ==> e.id != r.discordId)
    ensures RowOk(log + [e], r)
  {
    LastAfter(log, e, r.discordId);
    var x :| x in log && x.Inserted? && x.id == r.discordId && x.leetcode == r.leetcodeUsername;
    assert x in log + [e];
  }

  lemma InsertedRowOk(log: seq<Event>, e: Event, r: Row)
    requires e.Inserted? && e.id == r.discordId && e.leetcode == r.leetcodeUsername && r.leetcodeUsername != "" && r.stats == NULLS
    requires forall x :: x in log ==> !(x.Updated? && x.id == r.discordId)
    ensures RowOk(log + [e], r)
  {
    LastAfter(log, e, r.discordId);
    NoUpdateNoColumns(log, r.discordId);
    assert e in log + [e];
  }

  lemma InsertKeepsInv(w: World, c: Command, trace: seq<D.Response>)
    requires Inv(w) && c.Verifying? && CommandOk(w.table.users, c)
    requires D.Settled(trace, 0).Some? && Proves(D.Settled(trace, 0).value, c.username)
    requires Registers(w.table, ToString(c.user))
    ensures Inv(Describe(w, c, trace))
  {
    var id := ToString(c.user);
    var users, r := w.table.users, Row(id, c.username, c.leetcode, NULLS);
    var e := Inserted(id, c.username, c.leetcode, trace);
    InsertKeepsUnique(users, r);
    forall x | x in users + [r]
      ensures RowOk(w.log + [e], x)
    {
      if x in users {
        LogKeepsRow(w.log, e, x);
      } else {
        InsertedRowOk(w.log, e, r);
      }
    }
    forall k | k in w.commands
      ensures CommandOk(users + [r], w.commands[k])
    {
      InsertKeepsNames(users, r, ToString(w.commands[k].user));
    }
    forall x | x in w.log + [e] && x.Updated?
      ensures HasRow(users + [r], x.id)
    {
      InsertKeepsNames(users, r, x.id);
    }
  }

  // ----- refresh -----

  lemma RefreshedRowOk(log: seq<Event>, id: string, p: UserProfile, before: Row, after: Row)
    requires RowOk(log, before)
    requires before.discordId == id ==> after.discordId == id && after.leetcodeUsername == before.leetcodeUsername && after.stats == Filled(p)
    requires before.discordId != id ==> after == before
    ensures RowOk(log + [Updated(id, p)], after)
  {
    var e := Updated(id, p);
    LastAfter(log, e, after.discordId);
    var x :| x in log && x.Inserted? && x.id == before.discordId && x.leetcode == before.leetcodeUsername;
    assert x in log + [e];
  }

  lemma OnlyRow(users: seq<Row>, i: nat)
    requires UniqueIds(users) && i < |users|
    ensures RowById(users, users[i].discordId) == i && StoredName(users, users[i].discordId) == users[i].leetcodeUsername
  {
    RowByIdIs(users, users[i].discordId, i);
  }

  lemma RefreshKeepsInv(w: World, c: Command, p: UserProfile)
    requires Inv(w) && c.Refreshing? && CommandOk(w.table.users, c)
    requires p.totalSolved == p.easySolved + p.mediumSolved + p.hardSolved
    requires Updates(w.table, ToString(c.user))
    ensures var id := ToString(c.user);
            Inv(w.(table := Refresh(w.table, id, c.username, c.leetcode, p), log := w.log + [Updated(id, p)]))
  {
    var id, users := ToString(c.user), w.table.users;
    var after := UpdateRows(users, id, c.username, c.leetcode, Filled(p));
    var e := Updated(id, p);
    forall i | 0 <= i < |after|
      ensures RowOk(w.log + [e], after[i])
    {
      assert users[i] in users;
      OnlyRow(users, i);
      RefreshedRowOk(w.log, id, p, users[i], after[i]);
    }
    forall k | k in w.commands
      ensures CommandOk(after, w.commands[k])
    {
      RefreshKeepsNames(users, id, c.username, c.leetcode, Filled(p), ToString(w.commands[k].user));
    }
    forall x | x in w.log + [e] && x.Updated?
      ensures HasRow(after, x.id)
    {
      RefreshKeepsNames(users, id, c.username, c.leetcode, Filled(p), x.id);
    }
  }

  // ----- every step -----

  lemma ShowKeepsInv(w: World, e: Event)
    requires Inv(w) && e.Shown?
    ensures Inv(w.(log := w.log + [e]))
  {
    forall r | r in w.table.users
      ensures RowOk(w.log + [e], r)
    {
      LogKeepsRow(w.log, e, r);
    }
  }

  lemma DescribeKeepsInv(w: World, c: Command, trace: seq<D.Response>)
    requires Inv(w) && c.Verifying? && CommandOk(w.table.users, c) && D.Settled(trace, 0).Some?
    ensures Inv(Describe(w, c, trace))
  {
    if Proves(D.Settled(trace, 0).value, c.username) && Registers(w.table, ToString(c.user)) {
      InsertKeepsInv(w, c, trace);
    }
  }

  lemma RespondKeepsInv(w: World, c: Command, response: Option<ProfileResponse>)
    requires Inv(w) && c.Refreshing? && CommandOk(w.table.users, c)
    ensures Inv(Respond(w, c, response))
  {
    if response.Some? && Complete(response.value) && w.table.connected {
      NameNonEmpty(w, ToString(c.user));
      RefreshKeepsInv(w, c, ProfileOf(response.value));
    }
  }

  lemma BeginKeepsInv(w: World, cmd: nat, c: Command)
    requires Inv(w) && CommandOk(w.table.users, c)
    ensures Inv(Begin(w, cmd, c))
  {
  }

  lemma EndKeepsInv(w: World, cmd: nat)
    requires Inv(w)
    ensures Inv(End(w, cmd))
  {
  }

  lemma StepKeepsInv(w: World, s: Step)
    requires Inv(w) && Enabled(w, s)
    ensures Inv(Next(w, s))
  {
    match s
    case RegisterCommand(cmd, user, username, sub) =>
      NameNonEmpty(w, ToString(user));
      var r := StartRegister(w.table, user, username, sub);
      if r.Verify? {
        BeginKeepsInv(w, cmd, Verifying(user, username, r.leetcode));
      }
    case DescriptionArrives(cmd, trace) =>
      DescribeKeepsInv(w, w.commands[cmd], trace);
      EndKeepsInv(Describe(w, w.commands[cmd], trace), cmd);
    case ProfileCommand(cmd, user, username) =>
      NameNonEmpty(w, ToString(user));
      var name := NameOrEmpty(w.table, ToString(user));
      if name != "" {
        BeginKeepsInv(w, cmd, Named(user, username, name));
      }
    case CheckStats(cmd) =>
      var c := w.commands[cmd];
      BeginKeepsInv(w, cmd, if StatsPresent(w.table, c.username) then Cached(c.user, c.username, c.leetcode)
                            else Refreshing(c.user, c.username, c.leetcode));
    case ReadCached(cmd) =>
      var c := w.commands[cmd];
      var e := Shown(ToString(c.user), LeetcodeProfile(w.table, c.username));
      ShowKeepsInv(w, e);
      EndKeepsInv(w.(log := w.log + [e]), cmd);
    case UpdateCommand(cmd, user, username) =>
      NameNonEmpty(w, ToString(user));
      var name := NameOrEmpty(w.table, ToString(user));
      if name != "" {
        BeginKeepsInv(w, cmd, Refreshing(user, username, name));
      }
    case ResponseArrives(cmd, response) =>
      RespondKeepsInv(w, w.commands[cmd], response);
      EndKeepsInv(Respond(w, w.commands[cmd], response), cmd);
    case Connection(_) =>
  }

  lemma {:induction false} RunKeepsInv(w: World, steps: seq<Step>, end: World)
    requires Inv(w) && IsRun(w, steps, end)
    ensures Inv(end)
    decreases |steps|
  {
    if steps != [] {
      StepKeepsInv(w, steps[0]);
      RunKeepsInv(Next(w, steps[0]), steps[1..], end);
    }
  }

  /** Safety of the users table in every run: one row per id, no empty name, so the empty answer means
      that there is no row; and every row was inserted on the strength of a description that a settled
      chain delivered and that contained the user's token. */
  lemma TableSafety(steps: seq<Step>, end: World)
    requires IsRun(START, steps, end)
    ensures UniqueIds(end.table.users)
    ensures forall r :: r in end.table.users ==> r.leetcodeUsername != "" && InsertedWith(end.log, r.discordId, r.leetcodeUsername)
    ensures end.table.connected ==> forall id :: NameOrEmpty(end.table, id) == "" <==> !HasRow(end.table.users, id)
    ensures forall e :: e in end.log && e.Inserted? ==> Justified(e)
  {
    RunKeepsInv(START, steps, end);
    forall r | r in end.table.users
      ensures r.leetcodeUsername != "" && InsertedWith(end.log, r.discordId, r.leetcodeUsername)
    {
      assert RowOk(end.log, r);
    }
    forall id
      ensures end.table.connected ==> (NameOrEmpty(end.table, id) == "" <==> !HasRow(end.table.users, id))
    {
      NameNonEmpty(end, id);
    }
  }

  /** The text that justified an insertion. */
  ghost predicate ProvenBy(e: Event, text: string) {
    && e.Inserted?
    && D.FirstFinal(e.trace, 0) < |e.trace|
    && D.Delivers(e.trace[D.FirstFinal(e.trace, 0)], text)
    && T.Contains(text, T.Token(e.username))
  }

  /** Every row goes back to an insertion for its id and name after a request that ended in a response
      with status 200, within the size limit, whose aboutMe text contains the user's token. */
  lemma RowIsProven(steps: seq<Step>, end: World, r: Row) returns (e: Event, text: string)
    requires IsRun(START, steps, end) && r in end.table.users
    ensures e in end.log && ProvenBy(e, text) && e.id == r.discordId && e.leetcode == r.leetcodeUsername
    ensures var cc := e.trace[D.FirstFinal(e.trace, 0)]; cc.status == 200 && cc.size <= 100_000
    ensures exists a, b :: text == a + ("LeetBot->[" + e.username + "]->Verify") + b
  {
    TableSafety(steps, end);
    e :| e in end.log && e.Inserted? && e.id == r.discordId && e.leetcode == r.leetcodeUsername;
    assert Justified(e);
    text := D.Settled(e.trace, 0).value.value;
    D.SettledIff(e.trace, text);
    T.VerifiedIff(text, e.username);
  }

  /** Whatever text the responses deliver is one that the account asked about has held. */
  ghost predicate AnswersFor(trace: seq<D.Response>, leetcode: string, held: (string, string) -> bool) {
    forall cc, text :: cc in trace && D.Delivers(cc, text) ==> held(leetcode, text)
  }

  /** Every description in the run answers for the account that its command asked about. */
  ghost predicate Answered(w: World, steps: seq<Step>, held: (string, string) -> bool)
    decreases |steps|
  {
    steps != [] && Enabled(w, steps[0]) ==>
      && (steps[0].DescriptionArrives? ==> AnswersFor(steps[0].trace, w.commands[steps[0].cmd].leetcode, held))
      && Answered(Next(w, steps[0]), steps[1..], held)
  }

  ghost predicate InsertsAnswered(log: seq<Event>, held: (string, string) -> bool) {
    forall e :: e in log && e.Inserted? ==> AnswersFor(e.trace, e.leetcode, held)
  }

  lemma {:induction false} RunInsertsAnswered(w: World, steps: seq<Step>, end: World, held: (string, string) -> bool)
    requires IsRun(w, steps, end) && Answered(w, steps, held) && InsertsAnswered(w.log, held)
    ensures InsertsAnswered(end.log, held)
    decreases |steps|
  {
    if steps != [] {
      RunInsertsAnswered(Next(w, steps[0]), steps[1..], end, held);
    }
  }

  /** So when responses speak for the accounts they were asked about, the account stored in a row has
      itself held a text with the token of the user who registered it. */
  lemma AccountHeldToken(steps: seq<Step>, end: World, r: Row, held: (string, string) -> bool) returns (e: Event, text: string)
    requires IsRun(START, steps, end) && r in end.table.users && Answered(START, steps, held)
    ensures e in end.log && ProvenBy(e, text) && e.id == r.discordId && e.leetcode == r.leetcodeUsername
    ensures held(r.leetcodeUsername, text)
  {
    RunInsertsAnswered(START, steps, end, held);
    e, text := RowIsProven(steps, end, r);
    assert AnswersFor(e.trace, e.leetcode, held);
  }

  // ----- names never change -----

  lemma DescribeKeepsNames(w: World, c: Command, trace: seq<D.Response>, id: string)
    requires D.Settled(trace, 0).Some? && HasRow(w.table.users, id)
    ensures var after := Describe(w, c, trace).table.users;
            HasRow(after, id) && StoredName(after, id) == StoredName(w.table.users, id)
  {
    if Registers(w.table, ToString(c.user)) {
      InsertKeepsNames(w.table.users, Row(ToString(c.user), c.username, c.leetcode, NULLS), id);
    }
  }

  lemma RespondKeepsNames(w: World, c: Command, response: Option<ProfileResponse>, id: string)
    requires c.leetcode == StoredName(w.table.users, ToString(c.user)) && HasRow(w.table.users, id)
    ensures var after := Respond(w, c, response).table.users;
            HasRow(after, id) && StoredName(after, id) == StoredName(w.table.users, id)
  {
    if response.Some? && Complete(response.value) {
      RefreshKeepsNames(w.table.users, ToString(c.user), c.username, c.leetcode, Filled(ProfileOf(response.value)), id);
    }
  }

  lemma StepKeepsNames(w: World, s: Step, id: string)
    requires Inv(w) && Enabled(w, s) && HasRow(w.table.users, id)
    ensures HasRow(Next(w, s).table.users, id) && StoredName(Next(w, s).table.users, id) == StoredName(w.table.users, id)
  {
    if s.DescriptionArrives? {
      DescribeKeepsNames(w, w.commands[s.cmd], s.trace, id);
    } else if s.ResponseArrives? {
      assert CommandOk(w.table.users, w.commands[s.cmd]);
      RespondKeepsNames(w, w.commands[s.cmd], s.response, id);
    }
  }

  lemma {:induction false} RunKeepsNames(w: World, steps: seq<Step>, end: World, id: string)
    requires Inv(w) && IsRun(w, steps, end) && HasRow(w.table.users, id)
    ensures HasRow(end.table.users, id) && StoredName(end.table.users, id) == StoredName(w.table.users, id)
    decreases |steps|
  {
    if steps != [] {
      StepKeepsInv(w, steps[0]);
      StepKeepsNames(w, steps[0], id);
      RunKeepsNames(Next(w, steps[0]), steps[1..], end, id);
    }
  }

  /** Once a user is registered, the stored LeetCode name is the same for ever, although every refresh
      writes that column. */
  lemma NameIsPermanent(before: seq<Step>, w: World, after: seq<Step>, end: World, id: string)
    requires IsRun(START, before, w) && IsRun(w, after, end) && HasRow(w.table.users, id)
    ensures HasRow(end.table.users, id) && StoredName(end.table.users, id) == StoredName(w.table.users, id)
  {
    RunKeepsInv(START, before, w);
    RunKeepsNames(w, after, end, id);
  }

  // ----- cached reads -----

  /** A row's columns are all null or all from one update, whose total is the sum of its parts. */
  ghost predicate AllOrNone(c: Columns) {
    c == NULLS || exists p: UserProfile :: c == Filled(p) && p.totalSolved == p.easySolved + p.mediumSolved + p.hardSolved
  }

  lemma RowColumns(w: World, r: Row)
    requires Inv(w) && r in w.table.users
    ensures AllOrNone(r.stats)
    ensures match LastUpdate(w.log, r.discordId) case None => r.stats == NULLS case Some(p) => r.stats == Filled(p)
  {
    assert RowOk(w.log, r);
    ColumnsOfLastUpdate(w.log, r.discordId);
    var last := LastUpdate(w.log, r.discordId);
    if last.Some? {
      LastUpdateIsLogged(w.log, r.discordId);
    }
  }

  lemma StatsAllOrNone(steps: seq<Step>, end: World, r: Row)
    requires IsRun(START, steps, end) && r in end.table.users
    ensures AllOrNone(r.stats)
  {
    RunKeepsInv(START, steps, end);
    RowColumns(end, r);
  }

  /** What the stats check and the cached read amount to in any reachable state, for any name: they
      speak of the first row with that name, and the check also succeeds when there is none. */
  lemma ReadsByName(w: World, name: string)
    requires Inv(w) && w.table.connected
    ensures var i := RowByName(w.table.users, name);
            if i == |w.table.users| then StatsPresent(w.table, name) && LeetcodeProfile(w.table, name).None?
            else
              var last := LastUpdate(w.log, w.table.users[i].discordId);
              && (StatsPresent(w.table, name) <==> last.Some?)
              && (last.Some? ==> LeetcodeProfile(w.table, name) == last)
  {
    var i := RowByName(w.table.users, name);
    if i < |w.table.users| {
      RowColumns(w, w.table.users[i]);
      var last := LastUpdate(w.log, w.table.users[i].discordId);
      if last.Some? {
        FilledReadsBack(last.value);
      }
    }
  }

  /** Commands come from users whose Discord names are given by `name`. */
  ghost predicate NamedBy(s: Step, name: UserId -> string) {
    && (s.RegisterCommand? ==> s.username == name(s.user))
    && (s.ProfileCommand? ==> s.username == name(s.user))
    && (s.UpdateCommand? ==> s.username == name(s.user))
  }

  /** No two users share a name. The empty name, which registration refuses, does not count. */
  ghost predicate Distinct(name: UserId -> string) {
    forall a, b :: name(a) == name(b) != "" ==> a == b
  }

  ghost predicate RowNamed(r: Row, name: UserId -> string) {
    exists u: UserId :: r.discordId == ToString(u) && r.discordUsername == name(u) != ""
  }

  ghost predicate CommandNamed(c: Command, name: UserId -> string) {
    c.username == name(c.user) != ""
  }

  ghost predicate CommandsNamed(commands: map<nat, Command>, name: UserId -> string) {
    forall c :: c in commands ==> CommandNamed(commands[c], name)
  }

  ghost predicate RowsNamed(users: seq<Row>, name: UserId -> string) {
    forall r :: r in users ==> RowNamed(r, name)
  }

  ghost predicate NamesInv(w: World, name: UserId -> string) {
    && RowsNamed(w.table.users, name)
    && CommandsNamed(w.commands, name)
    && (forall c :: c in w.commands && w.commands[c].Cached? ==> LastUpdate(w.log, ToString(w.commands[c].user)).Some?)
  }

  /** A registered user's row carries the user's name. */
  lemma OwnRowIsNamed(w: World, name: UserId -> string, u: UserId)
    requires NamesInv(w, name) && HasRow(w.table.users, ToString(u))
    ensures w.table.users[RowById(w.table.users, ToString(u))].discordUsername == name(u) != ""
  {
    var users := w.table.users;
    var k := RowById(users, ToString(u));
    assert users[k] in users && RowNamed(users[k], name);
    var v: UserId :| users[k].discordId == ToString(v) && users[k].discordUsername == name(v) != "";
    ToStringInjective(u, v);
  }

  /** With distinct, stable names a user's row is the row found by the user's name. */
  lemma OwnRowByName(w: World, name: UserId -> string, u: UserId)
    requires NamesInv(w, name) && Distinct(name) && HasRow(w.table.users, ToString(u))
    ensures var i := RowByName(w.table.users, name(u));
            i < |w.table.users| && w.table.users[i].discordId == ToString(u)
  {
    var users := w.table.users;
    OwnRowIsNamed(w, name, u);
    var i := RowByName(users, name(u));
    assert users[i] in users && RowNamed(users[i], name);
    var x: UserId :| users[i].discordId == ToString(x) && users[i].discordUsername == name(x);
    assert x == u;
  }

  lemma LogKeepsUpdate(log: seq<Event>, e: Event, id: string)
    requires LastUpdate(log, id).Some?
    ensures LastUpdate(log + [e], id).Some?
  {
    LastAfter(log, e, id);
  }

  lemma StepKeepsLogged(w: World, s: Step, id: string)
    requires Enabled(w, s) && LastUpdate(w.log, id).Some?
    ensures LastUpdate(Next(w, s).log, id).Some?
  {
    forall e
      ensures LastUpdate(w.log + [e], id).Some?
    {
      LogKeepsUpdate(w.log, e, id);
    }
  }

  lemma DescribeKeepsRowsNamed(w: World, c: Command, trace: seq<D.Response>, name: UserId -> string)
    requires RowsNamed(w.table.users, name) && CommandNamed(c, name) && D.Settled(trace, 0).Some?
    ensures RowsNamed(Describe(w, c, trace).table.users, name)
  {
    assert RowNamed(Row(ToString(c.user), c.username, c.leetcode, NULLS), name);
  }

  lemma RespondKeepsRowsNamed(w: World, c: Command, response: Option<ProfileResponse>, name: UserId -> string)
    requires RowsNamed(w.table.users, name) && CommandNamed(c, name)
    ensures RowsNamed(Respond(w, c, response).table.users, name)
  {
    if response.Some? && Complete(response.value) {
      var row := Row(ToString(c.user), c.username, c.leetcode, Filled(ProfileOf(response.value)));
      assert RowNamed(row, name);
    }
  }

  lemma StepKeepsRowsNamed(w: World, s: Step, name: UserId -> string)
    requires NamesInv(w, name) && Enabled(w, s)
    ensures RowsNamed(Next(w, s).table.users, name)
  {
    if s.DescriptionArrives? {
      DescribeKeepsRowsNamed(w, w.commands[s.cmd], s.trace, name);
    } else if s.ResponseArrives? {
      RespondKeepsRowsNamed(w, w.commands[s.cmd], s.response, name);
    }
  }

  lemma CheckedHasUpdate(w: World, name: UserId -> string, u: UserId)
    requires Inv(w) && NamesInv(w, name) && Distinct(name)
    requires HasRow(w.table.users, ToString(u)) && StatsPresent(w.table, name(u))
    ensures LastUpdate(w.log, ToString(u)).Some?
  {
    OwnRowByName(w, name, u);
    ReadsByName(w, name(u));
  }

  lemma BeginKeepsCallers(w: World, cmd: nat, c: Command, name: UserId -> string)
    requires CommandsNamed(w.commands, name) && CommandNamed(c, name)
    ensures CommandsNamed(Begin(w, cmd, c).commands, name)
  {
  }

  /** A caller whose stored name is found is registered, so the caller's name is not empty. */
  lemma FoundIsNamed(w: World, u: UserId, name: UserId -> string)
    requires Inv(w) && NamesInv(w, name) && NameOrEmpty(w.table, ToString(u)) != ""
    ensures name(u) != ""
  {
    NameNonEmpty(w, ToString(u));
    OwnRowIsNamed(w, name, u);
  }

  lemma StepKeepsCallers(w: World, s: Step, name: UserId -> string)
    requires Inv(w) && NamesInv(w, name) && Enabled(w, s) && NamedBy(s, name)
    ensures CommandsNamed(Next(w, s).commands, name)
  {
    match s
    case RegisterCommand(cmd, user, username, sub) =>
      var r := StartRegister(w.table, user, username, sub);
      if r.Verify? {
        BeginKeepsCallers(w, cmd, Verifying(user, username, r.leetcode), name);
      }
    case ProfileCommand(cmd, user, username) =>
      var stored := NameOrEmpty(w.table, ToString(user));
      if stored != "" {
        FoundIsNamed(w, user, name);
        BeginKeepsCallers(w, cmd, Named(user, username, stored), name);
      }
    case UpdateCommand(cmd, user, username) =>
      var stored := NameOrEmpty(w.table, ToString(user));
      if stored != "" {
        FoundIsNamed(w, user, name);
        BeginKeepsCallers(w, cmd, Refreshing(user, username, stored), name);
      }
    case _ =>
  }

  /** A command on the cached branch was there before the step or has just passed the check. */
  lemma CachedOrigin(w: World, s: Step, c: nat)
    requires Enabled(w, s) && c in Next(w, s).commands && Next(w, s).commands[c].Cached?
    ensures c in w.commands && w.commands[c].user == Next(w, s).commands[c].user
    ensures w.commands[c].Cached? || (w.commands[c].Named? && StatsPresent(w.table, w.commands[c].username) && Next(w, s).log == w.log)
  {
  }

  lemma CachedStaysLogged(w: World, s: Step, name: UserId -> string, c: nat)
    requires Inv(w) && NamesInv(w, name) && Distinct(name) && Enabled(w, s)
    requires c in Next(w, s).commands && Next(w, s).commands[c].Cached?
    ensures LastUpdate(Next(w, s).log, ToString(Next(w, s).commands[c].user)).Some?
  {
    CachedOrigin(w, s, c);
    var u := w.commands[c].user;
    assert CommandNamed(w.commands[c], name);
    if w.commands[c].Cached? {
      StepKeepsLogged(w, s, ToString(u));
    } else {
      assert CommandOk(w.table.users, w.commands[c]);
      CheckedHasUpdate(w, name, u);
    }
  }

  lemma StepKeepsNamesInv(w: World, s: Step, name: UserId -> string)
    requires Inv(w) && NamesInv(w, name) && Distinct(name) && Enabled(w, s) && NamedBy(s, name)
    ensures NamesInv(Next(w, s), name)
  {
    var next := Next(w, s);
    StepKeepsRowsNamed(w, s, name);
    StepKeepsCallers(w, s, name);
    forall c | c in next.commands && next.commands[c].Cached?
      ensures LastUpdate(next.log, ToString(next.commands[c].user)).Some?
    {
      CachedStaysLogged(w, s, name, c);
    }
  }

  lemma {:induction false} RunKeepsNamesInv(w: World, steps: seq<Step>, end: World, name: UserId -> string)
    requires Inv(w) && NamesInv(w, name) && Distinct(name) && IsRun(w, steps, end)
    requires forall s :: s in steps ==> NamedBy(s, name)
    ensures Inv(end) && NamesInv(end, name)
    decreases |steps|
  {
    if steps != [] {
      assert NamedBy(steps[0], name);
      StepKeepsInv(w, steps[0]);
      StepKeepsNamesInv(w, steps[0], name);
      RunKeepsNamesInv(Next(w, steps[0]), steps[1..], end, name);
    }
  }

  /** A run from the start in which every user has one name. */
  ghost predicate NamedRun(steps: seq<Step>, end: World, name: UserId -> string) {
    IsRun(START, steps, end) && forall s :: s in steps ==> NamedBy(s, name)
  }

  /** What the user is shown is the user's own last successful update. */
  predicate OwnUpdate(w: World, u: UserId, username: string) {
    var last := LastUpdate(w.log, ToString(u));
    last.Some? && LeetcodeProfile(w.table, username) == last
  }

  predicate CoherentRead(w: World, cmd: nat)
    requires Enabled(w, ReadCached(cmd))
  {
    OwnUpdate(w, w.commands[cmd].user, w.commands[cmd].username)
  }

  /** In every run where Discord names are distinct and stable, a profile command that took the cached
      branch reads exactly the values of its own user's last successful update, whatever ran in between. */
  lemma CachedReadIsCoherent(steps: seq<Step>, w: World, cmd: nat, name: UserId -> string)
    requires NamedRun(steps, w, name) && Distinct(name)
    requires Enabled(w, ReadCached(cmd)) && w.table.connected
    ensures CoherentRead(w, cmd)
  {
    RunKeepsNamesInv(START, steps, w, name);
    var c := w.commands[cmd];
    assert CommandOk(w.table.users, c) && CommandNamed(c, name);
    OwnRowByName(w, name, c.user);
    ReadsByName(w, c.username);
  }

  /** A cached read in any reachable state, whatever ran since the stats check and whatever name it goes
      by: it is right exactly when a row has that name, the user's own row has statistics, and the first
      row with the name reads the same as the user's own. */
  lemma CachedReadIff(w: World, cmd: nat)
    requires Inv(w) && w.table.connected && Enabled(w, ReadCached(cmd))
    ensures var c, users := w.commands[cmd], w.table.users;
            var i, k := RowByName(users, c.username), RowById(users, ToString(c.user));
            && k < |users|
            && (CoherentRead(w, cmd) <==>
                  i < |users| && users[k].stats != NULLS && ProfileFromRow(users[i].stats) == ProfileFromRow(users[k].stats))
  {
    var c, users := w.commands[cmd], w.table.users;
    var k := RowById(users, ToString(c.user));
    assert CommandOk(users, c);
    NameNonEmpty(w, ToString(c.user));
    RowColumns(w, users[k]);
    var own := LastUpdate(w.log, ToString(c.user));
    if own.Some? {
      FilledReadsBack(own.value);
    }
  }

  /** The cached branch when nothing runs between check and read, for a registered user under any name:
      it is right exactly when the first row with that name exists and either has no statistics, so that the profile is
      fetched, or holds the same statistics as the user's own row. */
  lemma CachedBranchIff(w: World, u: UserId, name: string)
    requires Inv(w) && w.table.connected && HasRow(w.table.users, ToString(u))
    ensures var users := w.table.users;
            var i, k := RowByName(users, name), RowById(users, ToString(u));
            (StatsPresent(w.table, name) ==> OwnUpdate(w, u, name))
              <==> i < |users| && (users[i].stats == NULLS || users[i].stats == users[k].stats)
  {
    var users := w.table.users;
    var i, k := RowByName(users, name), RowById(users, ToString(u));
    ReadsByName(w, name);
    RowColumns(w, users[k]);
    var own := LastUpdate(w.log, ToString(u));
    if own.Some? {
      FilledReadsBack(own.value);
    }
    if i < |users| {
      RowColumns(w, users[i]);
      var last := LastUpdate(w.log, users[i].discordId);
      if last.Some? {
        FilledReadsBack(last.value);
      }
    }
  }

  // ----- runs in which it fails -----

  /** Every command among the steps is the user's own, under the given name. */
  ghost predicate CalledBy(steps: seq<Step>, u: UserId, username: string) {
    forall s :: s in steps ==>
      && (s.RegisterCommand? ==> s.user == u && s.username == username)
      && (s.ProfileCommand? ==> s.user == u && s.username == username)
      && (s.UpdateCommand? ==> s.user == u && s.username == username)
  }

  lemma {:induction false} RunConcat(w: World, a: seq<Step>, middle: World, b: seq<Step>, end: World)
    requires IsRun(w, a, middle) && IsRun(middle, b, end)
    ensures IsRun(w, a + b, end)
    decreases |a|
  {
    if a == [] {
      assert a + b == b;
    } else {
      assert (a + b)[0] == a[0] && (a + b)[1..] == a[1..] + b;
      RunConcat(Next(w, a[0]), a[1..], middle, b, end);
    }
  }

  lemma OneStep(w: World, s: Step)
    requires Enabled(w, s)
    ensures IsRun(w, [s], Next(w, s))
  {
    assert [s][1..] == [];
  }

  lemma TwoSteps(w: World, s: Step, t: Step)
    requires Enabled(w, s) && Enabled(Next(w, s), t)
    ensures IsRun(w, [s, t], Next(Next(w, s), t))
  {
    OneStep(w, s);
    OneStep(Next(w, s), t);
    RunConcat(w, [s], Next(w, s), [t], Next(Next(w, s), t));
    assert [s] + [t] == [s, t];
  }

  /** A response whose aboutMe is the text. */
  function Answer(text: string): D.Response {
    D.Response(200, 0, Some(D.Obj(map["data" := D.Obj(map["matchedUser" :=
      D.Obj(map["profile" := D.Obj(map["aboutMe" := D.Str(text)])])])])))
  }

  lemma AnswerSettles(text: string)
    ensures D.Settled([Answer(text)], 0) == Some(Some(text))
  {
    assert D.Delivers(Answer(text), text);
    D.SettledIff([Answer(text)], text);
  }

  /** No command waits and the database is connected. */
  predicate Idle(w: World) {
    w.commands == map[] && w.table.connected
  }

  const SOME_NAME := "leet"

  /** A registration that succeeds, while other commands wait. */
  lemma RegisterRun(w: World, cmd: nat, u: UserId, username: string) returns (steps: seq<Step>, end: World)
    requires w.table.connected && cmd !in w.commands && username != "" && !HasRow(w.table.users, ToString(u))
    ensures IsRun(w, steps, end) && end.commands == w.commands && end.table.connected && CalledBy(steps, u, username)
    ensures end.table.users == w.table.users + [Row(ToString(u), username, SOME_NAME, NULLS)]
    ensures forall id :: LastUpdate(end.log, id) == LastUpdate(w.log, id)
  {
    var trace := [Answer(T.Token(username))];
    AnswerSettles(T.Token(username));
    var option := CommandOption("leetcode_name", Text(SOME_NAME));
    assert LeetcodeName([option]) == SOME_NAME;
    var s := RegisterCommand(cmd, u, username, Some(Subcommand("user", [option])));
    var t := DescriptionArrives(cmd, trace);
    var middle := Next(w, s);
    assert middle == Begin(w, cmd, Verifying(u, username, SOME_NAME));
    end := Next(middle, t);
    steps := [s, t];
    TwoSteps(w, s, t);
    forall id
      ensures LastUpdate(end.log, id) == LastUpdate(w.log, id)
    {
      LastAfter(w.log, Inserted(ToString(u), username, SOME_NAME, trace), id);
    }
  }

  const SOME_RESPONSE := ProfileResponse(true, Absent, Some([]), Some(Info(Absent, Absent, Absent, Absent, [])))

  /** A refresh that succeeds. */
  lemma UpdateRun(w: World, u: UserId, username: string) returns (steps: seq<Step>, end: World, p: UserProfile)
    requires Idle(w) && HasRow(w.table.users, ToString(u)) && StoredName(w.table.users, ToString(u)) != ""
    ensures IsRun(w, steps, end) && Idle(end) && CalledBy(steps, u, username)
    ensures end.table.users == UpdateRows(w.table.users, ToString(u), username, StoredName(w.table.users, ToString(u)), Filled(p))
    ensures forall id :: LastUpdate(end.log, id) == if id == ToString(u) then Some(p) else LastUpdate(w.log, id)
    ensures p.ranking == -1
  {
    p := ProfileOf(SOME_RESPONSE);
    var s, t := UpdateCommand(0, u, username), ResponseArrives(0, Some(SOME_RESPONSE));
    var middle := Next(w, s);
    assert middle.commands == map[0 := Refreshing(u, username, StoredName(w.table.users, ToString(u)))];
    end := Next(middle, t);
    steps := [s, t];
    TwoSteps(w, s, t);
    forall id
      ensures LastUpdate(end.log, id) == if id == ToString(u) then Some(p) else LastUpdate(w.log, id)
    {
      LastAfter(w.log, Updated(ToString(u), p), id);
    }
  }

  /** A profile command that takes the cached branch. */
  lemma CachedRun(w: World, u: UserId, username: string) returns (steps: seq<Step>, end: World)
    requires Idle(w) && HasRow(w.table.users, ToString(u)) && StoredName(w.table.users, ToString(u)) != ""
    requires StatsPresent(w.table, username)
    ensures IsRun(w, steps, end) && CalledBy(steps, u, username) && Enabled(end, ReadCached(0))
    ensures end.table == w.table && end.log == w.log
    ensures end.commands.Keys == {0} && end.commands[0].user == u && end.commands[0].username == username
  {
    var s, t := ProfileCommand(0, u, username), CheckStats(0);
    end := Next(Next(w, s), t);
    steps := [s, t];
    TwoSteps(w, s, t);
  }

  lemma ConnectedRun() returns (steps: seq<Step>, end: World)
    ensures IsRun(START, steps, end) && Idle(end) && end.table.users == [] && end.log == []
    ensures forall u, username :: CalledBy(steps, u, username)
  {
    steps := [Connection(true)];
    end := Next(START, Connection(true));
    OneStep(START, Connection(true));
  }

  /** One registered user with an update. */
  lemma UpdatedUserRun(u: UserId, username: string) returns (steps: seq<Step>, end: World, p: UserProfile)
    requires username != ""
    ensures IsRun(START, steps, end) && Idle(end) && CalledBy(steps, u, username)
    ensures end.table.users == [Row(ToString(u), username, SOME_NAME, Filled(p))]
    ensures forall id :: LastUpdate(end.log, id) == if id == ToString(u) then Some(p) else None
    ensures p.ranking == -1
  {
    var s0, w0 := ConnectedRun();
    var s1, w1 := RegisterRun(w0, 0, u, username);
    var s2, w2, q := UpdateRun(w1, u, username);
    RunConcat(START, s0, w0, s1, w1);
    RunConcat(START, s0 + s1, w1, s2, w2);
    assert CalledBy(s0, u, username);
    steps, end, p := s0 + s1 + s2, w2, q;
  }

  /** Two users with one name: after one of them has updated, the other is shown that profile. */
  lemma SharedNameMisleads(a: UserId, b: UserId, name: UserId -> string) returns (steps: seq<Step>, end: World)
    requires a != b && name(a) == name(b) != ""
    ensures NamedRun(steps, end, name) && Enabled(end, ReadCached(0)) && end.table.connected
    ensures end.commands[0].user == b && LastUpdate(end.log, ToString(b)) == None
    ensures LastUpdate(end.log, ToString(a)).Some? && LeetcodeProfile(end.table, name(b)) == LastUpdate(end.log, ToString(a))
  {
    if ToString(a) == ToString(b) {
      ToStringInjective(a, b);
    }
    var s0, w0, p := UpdatedUserRun(a, name(a));
    RowByIdIs(w0.table.users, ToString(b), 1);
    var s1, w1 := RegisterRun(w0, 0, b, name(b));
    RowByIdIs(w1.table.users, ToString(b), 1);
    RowByNameIs(w1.table.users, name(b), 0);
    var s2, w2 := CachedRun(w1, b, name(b));
    FilledReadsBack(p);
    RunConcat(START, s0, w0, s1, w1);
    RunConcat(START, s0 + s1, w1, s2, w2);
    steps, end := s0 + s1 + s2, w2;
    forall s | s in steps
      ensures NamedBy(s, name)
    {
      assert s in s0 || s in s1 || s in s2;
    }
  }

  /** Where every user keeps one name, every cached read of every run is the reader's own last update if
      and only if no two users share a non-empty name. */
  lemma CachedReadsCoherentIff(name: UserId -> string)
    ensures Distinct(name) <==>
            forall steps, w, cmd :: NamedRun(steps, w, name) && Enabled(w, ReadCached(cmd)) && w.table.connected ==> CoherentRead(w, cmd)
  {
    if Distinct(name) {
      forall steps, w, cmd | NamedRun(steps, w, name) && Enabled(w, ReadCached(cmd)) && w.table.connected
        ensures CoherentRead(w, cmd)
      {
        CachedReadIsCoherent(steps, w, cmd, name);
      }
    } else {
      var a, b :| name(a) == name(b) != "" && a != b;
      var steps, w := SharedNameMisleads(a, b, name);
      assert !CoherentRead(w, 0);
    }
  }

  /** A user who takes a name that no row has is sent down the cached branch and shown nothing, although
      an update was stored: a whole run from the start. */
  lemma RenameHidesProfile(u: UserId, before: string, after: string) returns (steps: seq<Step>, end: World)
    requires before != "" && after != before
    ensures IsRun(START, steps, end) && end.table.connected && LastUpdate(end.log, ToString(u)).Some?
    ensures Enabled(end, ReadCached(0)) && end.commands[0].user == u && end.commands[0].username == after
    ensures LeetcodeProfile(end.table, after) == None
  {
    var s0, w0, p := UpdatedUserRun(u, before);
    RowByNameIs(w0.table.users, after, 1);
    var s1, w1 := CachedRun(w0, u, after);
    RunConcat(START, s0, w0, s1, w1);
    steps, end := s0 + s1, w1;
  }

  /** The check and the read are two accesses: between them a second user can register under the name
      that the first one has taken, and the first one is shown the empty row of the second. */
  lemma RaceShowsEmptyRow(u: UserId, v: UserId, before: string, after: string) returns (steps: seq<Step>, end: World)
    requires u != v && before != "" && after != "" && after != before
    ensures IsRun(START, steps, end) && end.table.connected && LastUpdate(end.log, ToString(u)).Some?
    ensures Enabled(end, ReadCached(0)) && end.commands[0].user == u && end.commands[0].username == after
    ensures LeetcodeProfile(end.table, after) == Some(ProfileFromRow(NULLS))
    ensures !StatsPresent(end.table, after) && !CoherentRead(end, 0)
  {
    if ToString(u) == ToString(v) {
      ToStringInjective(u, v);
    }
    var s0, w0, p := UpdatedUserRun(u, before);
    RowByNameIs(w0.table.users, after, 1);
    RowByIdIs(w0.table.users, ToString(v), 1);
    var s1, w1 := CachedRun(w0, u, after);
    var s2, w2 := RegisterRun(w1, 1, v, after);
    RowByNameIs(w2.table.users, after, 1);
    RunConcat(START, s0, w0, s1, w1);
    RunConcat(START, s0 + s1, w1, s2, w2);
    steps, end := s0 + s1 + s2, w2;
  }
}
