/** Fetching a LeetCode profile description: the retry chain and the promise it resolves. */
module Description {
  import opened Options

  const MAX_RESPONSE_BYTES := 100_000

  /** A JSON value; `Other` stands for numbers, booleans and arrays. */
  datatype Json = Null | Str(text: string) | Obj(fields: map<string, Json>) | Other

  /** `json[key]`: null yields null, an object yields the field or null, anything else throws. */
  function At(j: Json, key: string): Option<Json> {
    match j
    case Null => Some(Null)
    case Obj(fields) => Some(if key in fields then fields[key] else Null)
    case _ => None
  }

  /** A completed request; `body` is `None` when it is not valid JSON. */
  datatype Response = Response(status: int, size: nat, body: Option<Json>)

  /** A promise keeps the first value it is given and refuses, by throwing, any later one. */
  class Promise {
    var value: Option<Option<string>>

    constructor ()
      ensures value == None
    {
      value := None;
    }

    method SetValue(v: Option<string>) returns (threw: bool)
      modifies this
      ensures threw <==> old(value).Some?
      ensures value == if old(value).Some? then old(value) else Some(v)
    {
      threw := value.Some?;
      if !threw {
        value := Some(v);
      }
    }
  }

  predicate MissingUser(j: Json) {
    var data := At(j, "data");
    data.Some? && (data.value == Null || At(data.value, "matchedUser") == Some(Null))
  }

  /** The text the promise receives first for a valid body. */
  function FirstValue(j: Json): Option<string> {
    var data := At(j, "data");
    if data.None? || data.value == Null then None
    else
      var user := At(data.value, "matchedUser");
      if user.None? || user.value == Null then None
      else
        var name := At(user.value, "username");
        var profile := At(user.value, "profile");
        if name.None? || !(name.value.Null? || name.value.Str?) || profile.None? || profile.value == Null then None
        else
          var about := At(profile.value, "aboutMe");
          if about.Some? && about.value.Str? then Some(about.value.text) else None
  }

  /** The body of the try block; `threw` reports an exception. */
  method ReadDescription(response: Json, promise: Promise) returns (threw: bool)
    requires promise.value.None?
    modifies promise
    ensures !threw ==> promise.value == Some(FirstValue(response)) && !MissingUser(response)
    ensures threw && MissingUser(response) ==> promise.value == Some(None)
    ensures threw && !MissingUser(response) ==> promise.value.None? && FirstValue(response).None?
  {
    var data := At(response, "data");
    if data.None? {
      return true;
    }
    var missing := data.value == Null;
    if !missing {
      var matched := At(data.value, "matchedUser");
      if matched.None? {
        return true;
      }
      missing := matched.value == Null;
    }
    if missing {
      var failed := promise.SetValue(None);
    }
    var matchedUser := At(data.value, "matchedUser").value;
    var name := At(matchedUser, "username");
    if name.None? || !(name.value.Null? || name.value.Str?) {
      return true;
    }
    var profile := At(matchedUser, "profile").value;
    var about := At(profile, "aboutMe");
    if about.None? {
      return true;
    }
    if profile == Null || about.value == Null {
      threw := promise.SetValue(None);
    } else if !about.value.Str? {
      threw := true;
    } else {
      threw := promise.SetValue(Some(about.value.text));
    }
  }

  /** What a response that is not retried gives the promise. */
  function FinalValue(cc: Response): Option<string> {
    if cc.size > MAX_RESPONSE_BYTES || cc.status != 200 || cc.body.None? then None else FirstValue(cc.body.value)
  }

  /** The missing-user branch falls through and resolves the promise a second time. */
  predicate ResolvesTwice(cc: Response) {
    cc.size <= MAX_RESPONSE_BYTES && cc.status == 200 && cc.body.Some? && MissingUser(cc.body.value)
  }

  predicate Retried(cc: Response, retryCount: nat) {
    cc.size <= MAX_RESPONSE_BYTES && (cc.status == 429 || cc.status == 499) && retryCount < 3
  }

  /** Index of the first response that is not retried; `|trace|` when all are. */
  function FirstFinal(trace: seq<Response>, retryCount: nat): (k: nat)
    ensures k <= |trace|
    ensures retryCount <= 3 ==> k <= 3 - retryCount
    ensures forall i :: 0 <= i < k ==> Retried(trace[i], retryCount + i)
    ensures k < |trace| ==> !Retried(trace[k], retryCount + k)
  {
    if trace == [] || !Retried(trace[0], retryCount) then 0
    else
      var k := FirstFinal(trace[1..], retryCount + 1);
      assert forall i :: 1 <= i < 1 + k ==> trace[i] == trace[1..][i - 1];
      1 + k
  }

  /** The wait before the retries `retryCount` up to `retryCount + k`. */
  function TotalDelay(retryCount: nat, k: nat): nat
    decreases k
  {
    if k == 0 then 0 else 1 + retryCount + TotalDelay(retryCount + 1, k - 1)
  }

  /** The chain over the responses that arrive. `escaped` reports an exception that leaves the handler:
      the promise was resolved twice. */
  method FetchDescription(trace: seq<Response>, retryCount: nat, promise: Promise)
    returns (requests: nat, delay: nat, escaped: bool)
    requires promise.value.None?
    modifies promise
    ensures requests == FirstFinal(trace, retryCount) + 1
    ensures delay == TotalDelay(retryCount, FirstFinal(trace, retryCount))
    ensures promise.value == Settled(trace, retryCount)
    ensures escaped <==> var k := FirstFinal(trace, retryCount); k < |trace| && ResolvesTwice(trace[k])
    decreases |trace|
  {
    requests, delay, escaped := 1, 0, false;
    if trace == [] {
      return;
    }
    var cc := trace[0];
    if cc.size > MAX_RESPONSE_BYTES {
      escaped := promise.SetValue(None);
      return;
    }
    if cc.status == 200 {
      if cc.body.None? {
        escaped := promise.SetValue(None);
        return;
      }
      var threw := ReadDescription(cc.body.value, promise);
      if threw {
        escaped := promise.SetValue(None);
      }
    } else if (cc.status == 429 || cc.status == 499) && retryCount < 3 {
      requests, delay, escaped := FetchDescription(trace[1..], retryCount + 1, promise);
      requests, delay := requests + 1, 1 + retryCount + delay;
    } else {
      escaped := promise.SetValue(None);
    }
  }

  /** What the promise holds after the given responses. */
  function Settled(trace: seq<Response>, retryCount: nat): Option<Option<string>> {
    var k := FirstFinal(trace, retryCount);
    if k < |trace| then Some(FinalValue(trace[k])) else None
  }

  /** At most four requests and six seconds. */
  lemma ChainIsBounded(trace: seq<Response>)
    ensures FirstFinal(trace, 0) + 1 <= 4 && TotalDelay(0, FirstFinal(trace, 0)) <= 6
  {
    DelaysAre();
  }

  predicate HasField(j: Json, key: string) {
    j.Obj? && key in j.fields
  }

  /** The body is an object whose data has a user object with a profile object whose aboutMe is `text`,
      and the user's name, if there is one, is a string. */
  predicate Carries(j: Json, text: string) {
    && HasField(j, "data") && HasField(j.fields["data"], "matchedUser")
    && var user := j.fields["data"].fields["matchedUser"];
    && HasField(user, "profile") && HasField(user.fields["profile"], "aboutMe")
    && user.fields["profile"].fields["aboutMe"] == Str(text)
    && (HasField(user, "username") ==> user.fields["username"].Null? || user.fields["username"].Str?)
  }

  lemma FirstValueIff(j: Json, text: string)
    ensures FirstValue(j) == Some(text) <==> Carries(j, text)
  {
  }

  /** The response is within the size limit, has status 200, is valid JSON and carries the text. */
  predicate Delivers(cc: Response, text: string) {
    cc.size <= MAX_RESPONSE_BYTES && cc.status == 200 && cc.body.Some? && Carries(cc.body.value, text)
  }

  lemma FinalValueIff(cc: Response, text: string)
    ensures FinalValue(cc) == Some(text) <==> Delivers(cc, text)
  {
    if cc.body.Some? {
      FirstValueIff(cc.body.value, text);
    }
  }

  /** The future first receives a text exactly when the first response that is not retried delivers it. */
  lemma SettledIff(trace: seq<Response>, text: string)
    ensures Settled(trace, 0) == Some(Some(text)) <==>
            var k := FirstFinal(trace, 0);
            && k < |trace|
            && trace[k].size <= 100_000 && trace[k].status == 200 && trace[k].body.Some?
            && var j := trace[k].body.value;
            && j.Obj? && "data" in j.fields && j.fields["data"].Obj? && "matchedUser" in j.fields["data"].fields
            && var user := j.fields["data"].fields["matchedUser"];
            && user.Obj? && "profile" in user.fields && user.fields["profile"].Obj?
            && "aboutMe" in user.fields["profile"].fields && user.fields["profile"].fields["aboutMe"] == Str(text)
            && ("username" in user.fields ==> user.fields["username"].Null? || user.fields["username"].Str?)
  {
    var k := FirstFinal(trace, 0);
    if k < |trace| {
      FinalValueIff(trace[k], text);
    }
  }

  /** A response is retried when it is small enough and has status 429 or 499, at most three times; the
      waits are 1, 2 and 3 seconds. */
  lemma {:induction false} RetriesIff(trace: seq<Response>, k: nat)
    requires k <= |trace|
    ensures FirstFinal(trace, 0) == k <==>
            && k <= 3
            && (forall i :: 0 <= i < k ==> trace[i].size <= 100_000 && (trace[i].status == 429 || trace[i].status == 499))
            && (k == |trace| || k == 3 || trace[k].size > 100_000 || (trace[k].status != 429 && trace[k].status != 499))
    ensures FirstFinal(trace, 0) == k ==> TotalDelay(0, k) == [0, 1, 1 + 2, 1 + 2 + 3][k]
  {
    var f := FirstFinal(trace, 0);
    assert forall i :: 0 <= i < f ==> Retried(trace[i], 0 + i);
    if k < f {
      assert Retried(trace[k], 0 + k);
    }
    DelaysAre();
  }

  lemma DelaysAre()
    ensures TotalDelay(0, 0) == 0 && TotalDelay(0, 1) == 1 && TotalDelay(0, 2) == 3 && TotalDelay(0, 3) == 6
  {
    assert TotalDelay(1, 0) == TotalDelay(2, 0) == TotalDelay(3, 0) == 0;
    assert TotalDelay(2, 1) == 3 && TotalDelay(1, 1) == 2 && TotalDelay(1, 2) == 5;
  }

  /** The promise is resolved twice exactly when a valid body names no user: data or the matched user is
      null or missing. */
  lemma ResolvesTwiceIff(cc: Response)
    ensures ResolvesTwice(cc) <==>
            && cc.size <= 100_000 && cc.status == 200 && cc.body.Some?
            && var j := cc.body.value;
               (j.Null? || (j.Obj? && (if "data" !in j.fields then true
                                       else var data := j.fields["data"];
                                            data.Null? || (data.Obj? && ("matchedUser" in data.fields ==> data.fields["matchedUser"].Null?)))))
  {
  }

  /** A string aboutMe alone is not enough: a user name that is not a string hides it. */
  lemma NumericNameHidesText(text: string)
    ensures var user := Obj(map["username" := Other, "profile" := Obj(map["aboutMe" := Str(text)])]);
            FirstValue(Obj(map["data" := Obj(map["matchedUser" := user])])) == None
  {
  }
}
