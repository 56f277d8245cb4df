/** The users table as a sequence of rows, and the database class over it. */
module UsersTable {
  import opened Options
  import opened Stats

  /** The columns a profile refresh fills; all are null after an insert. */
  datatype Columns = Columns(
    easySolved: Option<int>, mediumSolved: Option<int>, hardSolved: Option<int>, totalSolved: Option<int>,
    ranking: Option<int>, submissions: Option<int>,
    realName: Option<string>, avatarUrl: Option<string>, countryName: Option<string>, skillTags: Option<string>)

  const NULLS := Columns(None, None, None, None, None, None, None, None, None, None)

  function Filled(p: UserProfile): Columns {
    Columns(Some(p.easySolved), Some(p.mediumSolved), Some(p.hardSolved), Some(p.totalSolved), Some(p.ranking),
            Some(p.submissions), Some(p.realName), Some(p.avatarUrl), Some(p.countryName), Some(p.skillTags))
  }

  datatype Row = Row(discordId: string, discordUsername: string, leetcodeUsername: string, stats: Columns)

  datatype Table = Table(connected: bool, users: seq<Row>)

  /** Position of the first row with the id; `|users|` when there is none. */
  function RowById(users: seq<Row>, id: string): (i: nat)
    ensures i <= |users| && (i < |users| ==> users[i].discordId == id)
    ensures forall k :: 0 <= k < i ==> users[k].discordId != id
  {
    if users == [] || users[0].discordId == id then 0
    else
      var i := RowById(users[1..], id);
      assert forall k :: 1 <= k < 1 + i ==> users[k] == users[1..][k - 1];
      1 + i
  }

  function RowByName(users: seq<Row>, name: string): (i: nat)
    ensures i <= |users| && (i < |users| ==> users[i].discordUsername == name)
    ensures forall k :: 0 <= k < i ==> users[k].discordUsername != name
  {
    if users == [] || users[0].discordUsername == name then 0
    else
      var i := RowByName(users[1..], name);
      assert forall k :: 1 <= k < 1 + i ==> users[k] == users[1..][k - 1];
      1 + i
  }

  predicate HasRow(users: seq<Row>, id: string) {
    RowById(users, id) < |users|
  }

  /** The name stored for an id; empty when there is no row. */
  function StoredName(users: seq<Row>, id: string): string {
    var i := RowById(users, id);
    if i < |users| then users[i].leetcodeUsername else ""
  }

  /** `UPDATE ... WHERE discord_id = id`: every row with the id is rewritten. */
  function UpdateRows(users: seq<Row>, id: string, name: string, leetcode: string, stats: Columns): (r: seq<Row>)
    ensures |r| == |users|
    ensures forall i :: 0 <= i < |users| ==>
              r[i] == if users[i].discordId == id then Row(id, name, leetcode, stats) else users[i]
  {
    seq(|users|, i requires 0 <= i < |users| => if users[i].discordId == id then Row(id, name, leetcode, stats) else users[i])
  }

  function IntOr0(n: Option<int>): int {
    match n case None => 0 case Some(v) => v
  }

  function TextOrEmpty(t: Option<string>): string {
    match t case None => "" case Some(v) => v
  }

  /** Reading the columns of a row; a null number reads 0 and a null text reads empty. */
  function ProfileFromRow(c: Columns): UserProfile {
    UserProfile(IntOr0(c.easySolved), IntOr0(c.mediumSolved), IntOr0(c.hardSolved), IntOr0(c.totalSolved), IntOr0(c.ranking),
                IntOr0(c.submissions), TextOrEmpty(c.realName), TextOrEmpty(c.avatarUrl), TextOrEmpty(c.countryName), TextOrEmpty(c.skillTags))
  }

  lemma FilledReadsBack(p: UserProfile)
    ensures ProfileFromRow(Filled(p)) == p
  {
  }

  // ----- the operations -----

  function Register(t: Table, id: string, name: string, leetcode: string): Table {
    if !t.connected || HasRow(t.users, id) then t else t.(users := t.users + [Row(id, name, leetcode, NULLS)])
  }

  predicate Registers(t: Table, id: string) {
    t.connected && !HasRow(t.users, id)
  }

  /** The name of the user's row, and the empty string when there is none. */
  function LeetcodeUsername(t: Table, id: string): Option<string> {
    if !t.connected then None
    else
      var i := RowById(t.users, id);
      Some(if i < |t.users| then t.users[i].leetcodeUsername else "")
  }

  function NameOrEmpty(t: Table, id: string): string {
    TextOrEmpty(LeetcodeUsername(t, id))
  }

  /** The check succeeds when there is no row at all. */
  predicate StatsPresent(t: Table, name: string) {
    && t.connected
    && var i := RowByName(t.users, name);
       i < |t.users| ==>
         var c := t.users[i].stats;
         c.easySolved.Some? && c.mediumSolved.Some? && c.hardSolved.Some? && c.totalSolved.Some?
  }

  function LeetcodeProfile(t: Table, name: string): Option<UserProfile> {
    var i := RowByName(t.users, name);
    if !t.connected || i == |t.users| then None else Some(ProfileFromRow(t.users[i].stats))
  }

  function Refresh(t: Table, id: string, name: string, leetcode: string, p: UserProfile): Table {
    if !t.connected then t else t.(users := UpdateRows(t.users, id, name, leetcode, Filled(p)))
  }

  predicate Updates(t: Table, id: string) {
    t.connected && HasRow(t.users, id)
  }

  /** The database object. Each method is one atomic statement sequence. */
  class LeetoDB {
    var connected: bool
    var users: seq<Row>

    function Snapshot(): Table
      reads this
    {
      Table(connected, users)
    }

    constructor (rows: seq<Row>)
      ensures Snapshot() == Table(false, rows)
    {
      connected, users := false, rows;
    }

    /** `ok` tells whether the driver connects. */
    method Connect(ok: bool) returns (r: bool)
      modifies this`connected
      ensures r == ok && Snapshot() == old(Snapshot()).(connected := ok)
    {
      connected := ok;
      r := connected;
    }

    method Disconnect()
      modifies this`connected
      ensures Snapshot() == old(Snapshot()).(connected := false)
    {
      connected := false;
    }

    method RegisterUser(id: string, name: string, leetcode: string) returns (ok: bool)
      modifies this`users
      ensures ok <==> old(connected) && forall r :: r in old(users) ==> r.discordId != id
      ensures !ok ==> users == old(users)
      ensures ok ==> |users| == |old(users)| + 1 && users[..|old(users)|] == old(users)
      ensures ok ==> var r := users[|old(users)|];
                       && r.discordId == id && r.discordUsername == name && r.leetcodeUsername == leetcode
                       && r.stats.easySolved == r.stats.mediumSolved == r.stats.hardSolved == r.stats.totalSolved == None
                       && r.stats.ranking == r.stats.submissions == None
                       && r.stats.realName == r.stats.avatarUrl == r.stats.countryName == r.stats.skillTags == None
      ensures ok == old(Registers(Snapshot(), id))
      ensures Snapshot() == Register(old(Snapshot()), id, name, leetcode)
    {
      if !connected {
        return false;
      }
      if RowById(users, id) < |users| {
        return false;
      }
      users := users + [Row(id, name, leetcode, NULLS)];
      ok := true;
    }

    method GetLeetcodeUsername(id: string) returns (r: Option<string>)
      ensures r == LeetcodeUsername(Snapshot(), id)
      ensures r.None? <==> !connected
      ensures connected ==>
                var i := RowById(users, id); // the first row with the id
                r == Some(if i < |users| then users[i].leetcodeUsername else "")
    {
      if !connected {
        return None;
      }
      var name := "";
      var i := RowById(users, id);
      if i < |users| {
        name := users[i].leetcodeUsername;
      }
      r := Some(name);
    }

    method StatsExist(name: string) returns (r: bool)
      ensures r == StatsPresent(Snapshot(), name)
      ensures r ==> connected
      ensures connected ==>
                var i := RowByName(users, name); // the first row with the name
                r <==> (i < |users| ==>
                          var c := users[i].stats;
                          c.easySolved != None && c.mediumSolved != None && c.hardSolved != None && c.totalSolved != None)
    {
      if !connected {
        return false;
      }
      var i := RowByName(users, name);
      if i < |users| {
        var c := users[i].stats;
        if c.easySolved.None? || c.mediumSolved.None? || c.hardSolved.None? || c.totalSolved.None? {
          return false;
        }
      }
      r := true;
    }

    method GetLeetcodeProfile(name: string) returns (p: Option<UserProfile>)
      ensures p == LeetcodeProfile(Snapshot(), name)
      ensures p.None? <==> !connected || forall row :: row in users ==> row.discordUsername != name
      ensures p.Some? ==>
                var c := users[RowByName(users, name)].stats;
                && (if c.easySolved.Some? then p.value.easySolved == c.easySolved.value else p.value.easySolved == 0)
                && (if c.mediumSolved.Some? then p.value.mediumSolved == c.mediumSolved.value else p.value.mediumSolved == 0)
                && (if c.hardSolved.Some? then p.value.hardSolved == c.hardSolved.value else p.value.hardSolved == 0)
                && (if c.totalSolved.Some? then p.value.totalSolved == c.totalSolved.value else p.value.totalSolved == 0)
                && (if c.ranking.Some? then p.value.ranking == c.ranking.value else p.value.ranking == 0)
                && (if c.submissions.Some? then p.value.submissions == c.submissions.value else p.value.submissions == 0)
                && (if c.realName.Some? then p.value.realName == c.realName.value else p.value.realName == "")
                && (if c.avatarUrl.Some? then p.value.avatarUrl == c.avatarUrl.value else p.value.avatarUrl == "")
                && (if c.countryName.Some? then p.value.countryName == c.countryName.value else p.value.countryName == "")
                && (if c.skillTags.Some? then p.value.skillTags == c.skillTags.value else p.value.skillTags == "")
    {
      if !connected {
        return None;
      }
      var i := RowByName(users, name);
      if i == |users| {
        return None;
      }
      p := Some(ProfileFromRow(users[i].stats));
    }

    method UpdateProfile(id: string, name: string, leetcode: string, p: UserProfile) returns (ok: bool)
      modifies this`users
      ensures ok == old(Updates(Snapshot(), id))
      ensures ok <==> old(connected) && exists r :: r in old(users) && r.discordId == id
      ensures |users| == |old(users)|
      ensures forall i :: 0 <= i < |users| && !(ok && old(users)[i].discordId == id) ==> users[i] == old(users)[i]
      ensures forall i :: 0 <= i < |users| && ok && old(users)[i].discordId == id ==>
                var r, c := users[i], users[i].stats;
                && r.discordId == id && r.discordUsername == name && r.leetcodeUsername == leetcode
                && c.easySolved == Some(p.easySolved) && c.mediumSolved == Some(p.mediumSolved)
                && c.hardSolved == Some(p.hardSolved) && c.totalSolved == Some(p.totalSolved)
                && c.ranking == Some(p.ranking) && c.submissions == Some(p.submissions)
                && c.realName == Some(p.realName) && c.avatarUrl == Some(p.avatarUrl)
                && c.countryName == Some(p.countryName) && c.skillTags == Some(p.skillTags)
      ensures Snapshot() == Refresh(old(Snapshot()), id, name, leetcode, p)
    {
      if !connected {
        return false;
      }
      if RowById(users, id) == |users| {
        NoRowNoUpdate(users, id, name, leetcode, Filled(p));
        return false;
      }
      users := UpdateRows(users, id, name, leetcode, Filled(p));
      ok := true;
    }
  }

  /** The position is determined by being first. */
  lemma RowByIdIs(users: seq<Row>, id: string, i: nat)
    requires i <= |users| && (i < |users| ==> users[i].discordId == id)
    requires forall k :: 0 <= k < i ==> users[k].discordId != id
    ensures RowById(users, id) == i
  {
  }

  lemma RowByNameIs(users: seq<Row>, name: string, i: nat)
    requires i <= |users| && (i < |users| ==> users[i].discordUsername == name)
    requires forall k :: 0 <= k < i ==> users[k].discordUsername != name
    ensures RowByName(users, name) == i
  {
  }

  /** Writing back the stored name keeps every stored name and every row's id. */
  lemma RefreshKeepsNames(users: seq<Row>, id: string, name: string, leetcode: string, stats: Columns, x: string)
    requires leetcode == StoredName(users, id)
    ensures var r := UpdateRows(users, id, name, leetcode, stats);
            StoredName(r, x) == StoredName(users, x) && (HasRow(r, x) <==> HasRow(users, x))
  {
    var r := UpdateRows(users, id, name, leetcode, stats);
    RowByIdIs(r, x, RowById(users, x));
  }

  lemma NoRowNoUpdate(users: seq<Row>, id: string, name: string, leetcode: string, stats: Columns)
    requires !HasRow(users, id)
    ensures UpdateRows(users, id, name, leetcode, stats) == users
  {
  }
}
