/** The command handlers: what each step of a command asks of the database and decides. */
module Commands {
  import opened Options
  import opened Decimal
  import opened Stats
  import opened UsersTable
  import T = Tokens

  datatype OptionValue = Text(s: string) | NotText
  datatype CommandOption = CommandOption(name: string, value: OptionValue)
  datatype Subcommand = Subcommand(name: string, options: seq<CommandOption>)

  /** The last text option with the expected name; empty when there is none. */
  function LeetcodeName(options: seq<CommandOption>): string {
    if options == [] then ""
    else
      var o := options[|options| - 1];
      if o.name == "leetcode_name" && o.value.Text? then o.value.s else LeetcodeName(options[..|options| - 1])
  }

  // ----- register -----

  datatype RegisterStart = NoSubcommand | UnknownSubcommand | NoUsername | AlreadyRegistered | Verify(leetcode: string)

  function StartRegister(t: Table, user: UserId, username: string, sub: Option<Subcommand>): RegisterStart {
    if sub.None? then NoSubcommand
    else if sub.value.name != "user" then UnknownSubcommand
    else if username == "" then NoUsername
    else if LeetcodeName(sub.value.options) == NameOrEmpty(t, ToString(user)) then AlreadyRegistered
    else Verify(LeetcodeName(sub.value.options))
  }

  /** The last option of that name that holds a text decides, and without one the name is empty. */
  lemma {:induction false} LastNameOption(options: seq<CommandOption>, i: nat)
    requires i < |options|
    requires forall j :: i < j < |options| ==> options[j].name != "leetcode_name" || options[j].value.NotText?
    ensures options[i].name == "leetcode_name" && options[i].value.Text? ==> LeetcodeName(options) == options[i].value.s
    ensures (forall j :: 0 <= j <= i ==> options[j].name != "leetcode_name" || options[j].value.NotText?) ==> LeetcodeName(options) == ""
    decreases |options|
  {
    var n := |options| - 1;
    if i < n {
      LastNameOption(options[..n], i);
    } else if n > 0 && (options[n].name != "leetcode_name" || options[n].value.NotText?) {
      NoNameOption(options[..n]);
    }
  }

  lemma {:induction false} NoNameOption(options: seq<CommandOption>)
    ensures (forall o :: o in options ==> o.name != "leetcode_name" || o.value.NotText?) ==> LeetcodeName(options) == ""
    decreases |options|
  {
    if options != [] {
      NoNameOption(options[..|options| - 1]);
    }
  }

  /** A name that equals the stored one, or is empty when none is stored, counts as registered. */
  method BeginRegister(db: LeetoDB, user: UserId, username: string, sub: Option<Subcommand>) returns (r: RegisterStart)
    ensures r == StartRegister(db.Snapshot(), user, username, sub)
    ensures r.NoSubcommand? <==> sub.None?
    ensures r.UnknownSubcommand? <==> sub.Some? && sub.value.name != "user"
    ensures r.NoUsername? <==> sub.Some? && sub.value.name == "user" && username == ""
    ensures r.AlreadyRegistered? || r.Verify? ==>
              var stored := if db.connected then StoredName(db.users, ToString(user)) else "";
              && (r.AlreadyRegistered? <==> LeetcodeName(sub.value.options) == stored)
              && (r.Verify? ==> r.leetcode == LeetcodeName(sub.value.options))
  {
    if sub.None? {
      return NoSubcommand;
    }
    if sub.value.name != "user" {
      return UnknownSubcommand;
    }
    var options := sub.value.options;
    var leetcodeUser := "";
    for n := 0 to |options|
      invariant leetcodeUser == LeetcodeName(options[..n])
    {
      assert options[..n + 1][..n] == options[..n];
      if options[n].name == "leetcode_name" && options[n].value.Text? {
        leetcodeUser := options[n].value.s;
      }
    }
    assert options[..|options|] == options;
    if username == "" {
      return NoUsername;
    }
    var stored := db.GetLeetcodeUsername(ToString(user));
    if leetcodeUser == TextOrEmpty(stored) {
      return AlreadyRegistered;
    }
    r := Verify(leetcodeUser);
  }

  /** The description proves that the user owns the account. */
  predicate Proves(desc: Option<string>, username: string) {
    desc.Some? && T.Contains(desc.value, T.Token(username))
  }

  /** The table after the description of a registration has arrived. */
  function Verified(t: Table, user: UserId, username: string, leetcode: string, desc: Option<string>): Table {
    if Proves(desc, username) then Register(t, ToString(user), username, leetcode) else t
  }

  datatype RegisterEnd = NoDescription | NotVerified | Registered | Failed

  method FinishRegister(db: LeetoDB, user: UserId, username: string, leetcode: string, desc: Option<string>) returns (r: RegisterEnd)
    modifies db
    ensures r.NoDescription? <==> desc.None?
    ensures r.NotVerified? <==> desc.Some? && !exists a, b :: desc.value == a + ("LeetBot->[" + username + "]->Verify") + b
    ensures r.Registered? <==>
              && desc.Some? && (exists a, b :: desc.value == a + ("LeetBot->[" + username + "]->Verify") + b)
              && old(db.connected) && old(!HasRow(db.users, ToString(user)))
    ensures db.connected == old(db.connected)
    ensures db.users == if r.Registered? then old(db.users) + [Row(ToString(user), username, leetcode, NULLS)] else old(db.users)
    ensures db.Snapshot() == Verified(old(db.Snapshot()), user, username, leetcode, desc)
  {
    if desc.Some? {
      T.VerifiedIff(desc.value, username);
    }
    if desc.None? {
      return NoDescription;
    }
    if !T.Contains(desc.value, T.Token(username)) {
      return NotVerified;
    }
    var success := db.RegisterUser(ToString(user), username, leetcode);
    r := if success then Registered else Failed;
  }

  // ----- profile and update -----

  /** Both branches begin by looking up the caller's name and stop when it is empty. A name that is
      found is the one in the caller's row, and writing it back to that row changes nobody's name. When
      no stored name is empty, finding none means that the caller has no row or that the database is
      not connected. */
  method LookUpCaller(db: LeetoDB, user: UserId) returns (name: Option<string>)
    ensures name.Some? ==> name.value != "" && exists r :: r in db.users && r.discordId == ToString(user) && r.leetcodeUsername == name.value
    ensures name.Some? ==> forall p, username, id ::
              StoredName(Refresh(db.Snapshot(), ToString(user), username, name.value, p).users, id) == StoredName(db.users, id)
    ensures name.None? && db.connected && (forall r :: r in db.users ==> r.leetcodeUsername != "") ==>
              forall r :: r in db.users ==> r.discordId != ToString(user)
  {
    var stored := db.GetLeetcodeUsername(ToString(user));
    var leetcodeUsername := TextOrEmpty(stored);
    name := if leetcodeUsername == "" then None else Some(leetcodeUsername);
    if name.Some? {
      WriteBackKeepsNames(db.Snapshot(), ToString(user));
    }
  }

  lemma WriteBackKeepsNames(t: Table, caller: string)
    ensures forall p, username, id ::
              StoredName(Refresh(t, caller, username, StoredName(t.users, caller), p).users, id) == StoredName(t.users, id)
  {
    forall p, username, id
      ensures StoredName(Refresh(t, caller, username, StoredName(t.users, caller), p).users, id) == StoredName(t.users, id)
    {
      RefreshKeepsNames(t.users, caller, username, StoredName(t.users, caller), Filled(p), id);
    }
  }

  datatype ProfileAnswer = Show(profile: UserProfile) | CannotShow | Fetch

  /** The profile branch after the look-up: the cached row, or a fetch when its statistics are missing. */
  method AnswerProfile(db: LeetoDB, username: string) returns (r: ProfileAnswer)
    ensures r.Fetch? <==> !StatsPresent(db.Snapshot(), username)
    ensures r.CannotShow? <==> StatsPresent(db.Snapshot(), username) && LeetcodeProfile(db.Snapshot(), username).None?
    ensures r.Show? ==> LeetcodeProfile(db.Snapshot(), username) == Some(r.profile)
  {
    var cached := db.StatsExist(username);
    if !cached {
      return Fetch;
    }
    var profile := db.GetLeetcodeProfile(username);
    r := if profile.None? then CannotShow else Show(profile.value);
  }

  /** The table after a profile response has arrived. */
  function Refreshed(t: Table, user: UserId, username: string, leetcode: string, response: ProfileResponse): Table {
    if Complete(response) then Refresh(t, ToString(user), username, leetcode, ProfileOf(response)) else t
  }

  /** The refresh: the stored name is passed back to the row it came from. */
  method FinishRefresh(db: LeetoDB, user: UserId, username: string, leetcode: string, response: ProfileResponse) returns (updated: bool)
    modifies db
    ensures updated <==> Complete(response) && old(Updates(db.Snapshot(), ToString(user)))
    ensures db.Snapshot() == Refreshed(old(db.Snapshot()), user, username, leetcode, response)
  {
    var profile := ReadProfile(response);
    if profile.None? {
      return false;
    }
    updated := db.UpdateProfile(ToString(user), username, leetcode, profile.value);
  }
}
