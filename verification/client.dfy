/**
 * FootballClient: the request builder's query-parameter map, the
 * constructor that seeds it from the environment, the fluent setters that
 * overwrite one key each, and call(), which sends the map unchanged and
 * folds the four transport failure kinds into one exception.
 *
 * The PHP object mutates its map in place and returns itself; here every
 * setter returns the updated builder value instead.
 */
module FootballClient {
  import opened Wrappers
  import Php
  import Encoding

  /** The root every call() path is resolved against. */
  const BaseUri: string := "https://api.sportmonks.com/v3/football/"

  const InvalidApiKeyMessage: string := "Invalid API Key Provided"

  /** A PHP int on a 64-bit build. */
  type PhpInt = x: int | -0x8000_0000_0000_0000 <= x < 0x8000_0000_0000_0000

  /** A query-parameter value: a PHP string or int. */
  datatype Val = Str(s: string) | Int(i: PhpInt)

  /** The `array|string` argument of setInclude, setFilters and setParam. */
  datatype ParamValue = Raw(text: string) | Grouped(groups: seq<Encoding.Group>)

  /** The builder's state: the query parameters sent with every call(). */
  datatype Client = Client(query: map<string, Val>)

  /** The two environment variables the constructor reads:
      SPORTMONKS_API_TOKEN and SPORTMONKS_TIMEZONE. */
  datatype Env = Env(apiToken: Option<string>, timezone: Option<string>)

  datatype InvalidArgumentException = InvalidArgumentException(message: string)

  /** `after` is `before` with `key` set to `v`: no other key appears,
      disappears or changes. */
  predicate Overwrites(before: map<string, Val>, after: map<string, Val>, key: string, v: Val) {
    && after.Keys == before.Keys + {key}
    && key in after && after[key] == v
    && forall k :: k in before && k != key ==> after[k] == before[k]
  }

  /** A builder holds a usable API token: a string PHP does not consider empty. */
  predicate Valid(c: Client) {
    "api_token" in c.query && c.query["api_token"].Str? && !Php.IsFalsy(c.query["api_token"].s)
  }

  // ---------------------------------------------------------------------
  // Construction

  /** new FootballClient(): reject a token PHP's empty() holds of (unset,
      "" or "0"); otherwise seed the map with the token and, when the
      variable is set at all, the timezone. */
  function New(env: Env): (r: Result<Client, InvalidArgumentException>)
    ensures r.Failure? <==> env.apiToken.None? || Php.IsFalsy(env.apiToken.value)
    ensures r.Failure? ==> r.error.message == InvalidApiKeyMessage
    ensures r.Success? ==> Valid(r.value)
    ensures r.Success? ==>
      r.value.query.Keys == {"api_token"} + (if env.timezone.Some? then {"timezone"} else {})
    ensures r.Success? ==> r.value.query["api_token"] == Str(env.apiToken.value)
    ensures r.Success? && env.timezone.Some? ==> r.value.query["timezone"] == Str(env.timezone.value)
  {
    if env.apiToken.None? || Php.IsFalsy(env.apiToken.value) then
      Failure(InvalidArgumentException(InvalidApiKeyMessage))
    else
      var query := map["api_token" := Str(env.apiToken.value)];
      match env.timezone
      case None => Success(Client(query))
      case Some(tz) => Success(Client(query["timezone" := Str(tz)]))
  }

  // ---------------------------------------------------------------------
  // Fluent setters

  /** The string setParam stores for a value: a string verbatim, a grouping encoded. */
  function Encoded(value: ParamValue): string {
    match value
    case Raw(text) => text
    case Grouped(groups) => Encoding.EncodeGroups(groups)
  }

  /** setParam($param, $value): overwrite one key with the value's encoding. */
  function SetParam(c: Client, param: string, value: ParamValue): (r: Client)
    ensures Overwrites(c.query, r.query, param, Str(Encoded(value)))
    ensures value.Raw? ==> r.query[param] == Str(value.text)
  {
    Client(c.query[param := Str(Encoded(value))])
  }

  function SetInclude(c: Client, value: ParamValue): (r: Client)
    ensures Overwrites(c.query, r.query, "include", Str(Encoded(value)))
    ensures Valid(c) ==> Valid(r)
  {
    SetParam(c, "include", value)
  }

  function SetFilters(c: Client, value: ParamValue): (r: Client)
    ensures Overwrites(c.query, r.query, "filters", Str(Encoded(value)))
    ensures Valid(c) ==> Valid(r)
  {
    SetParam(c, "filters", value)
  }

  /** setSelect($fields): the single-level list encoding, under `select`. */
  function SetSelect(c: Client, fields: seq<string>): (r: Client)
    ensures Overwrites(c.query, r.query, "select", Str(Encoding.EncodeItems(fields)))
    ensures Valid(c) ==> Valid(r)
  {
    Client(c.query["select" := Str(Encoding.EncodeItems(fields))])
  }

  /** setPage($page): any int, stored as it is. */
  function SetPage(c: Client, page: PhpInt): (r: Client)
    ensures Overwrites(c.query, r.query, "page", Int(page))
    ensures Valid(c) ==> Valid(r)
  {
    Client(c.query["page" := Int(page)])
  }

  /** setPerPage($perPage): any int, stored as it is. */
  function SetPerPage(c: Client, perPage: PhpInt): (r: Client)
    ensures Overwrites(c.query, r.query, "per_page", Int(perPage))
    ensures Valid(c) ==> Valid(r)
  {
    Client(c.query["per_page" := Int(perPage)])
  }

  // ---------------------------------------------------------------------
  // Chains of setter calls

  /** One public fluent setter call. */
  datatype Setter =
    | Include(value: ParamValue)
    | Filters(value: ParamValue)
    | Select(fields: seq<string>)
    | Page(page: PhpInt)
    | PerPage(perPage: PhpInt)

  /** The key a setter writes. */
  function Key(op: Setter): string {
    match op
    case Include(_) => "include"
    case Filters(_) => "filters"
    case Select(_) => "select"
    case Page(_) => "page"
    case PerPage(_) => "per_page"
  }

  /** The value a setter writes. */
  function Written(op: Setter): Val {
    match op
    case Include(v) => Str(Encoded(v))
    case Filters(v) => Str(Encoded(v))
    case Select(fields) => Str(Encoding.EncodeItems(fields))
    case Page(n) => Int(n)
    case PerPage(n) => Int(n)
  }

  function Apply(c: Client, op: Setter): (r: Client)
    ensures Overwrites(c.query, r.query, Key(op), Written(op))
    ensures Valid(c) ==> Valid(r)
  {
    match op
    case Include(v) => SetInclude(c, v)
    case Filters(v) => SetFilters(c, v)
    case Select(fields) => SetSelect(c, fields)
    case Page(n) => SetPage(c, n)
    case PerPage(n) => SetPerPage(c, n)
  }

  /** The keys some setter in `ops` writes. */
  function WrittenKeys(ops: seq<Setter>): set<string> {
    set op | op in ops :: Key(op)
  }

  /** $client->op1(...)->op2(...)->...: the setters applied left to right.
      Nothing is ever removed: the keys afterwards are the keys before and
      the keys the setters write. */
  function Chain(c: Client, ops: seq<Setter>): (r: Client)
    ensures r.query.Keys == c.query.Keys + WrittenKeys(ops)
    decreases |ops|
  {
    if ops == [] then c
    else
      var r := Chain(Apply(c, ops[0]), ops[1..]);
      assert ops == [ops[0]] + ops[1..];
      assert WrittenKeys(ops) == {Key(ops[0])} + WrittenKeys(ops[1..]);
      r
  }

  /** The value the last setter in `ops` that writes `key` writes, if any. */
  function LastWrite(ops: seq<Setter>, key: string): Option<Val> {
    if ops == [] then None
    else
      match LastWrite(ops[1..], key)
      case Some(v) => Some(v)
      case None => if Key(ops[0]) == key then Some(Written(ops[0])) else None
  }

  /** Overwrite, never merge: after a chain of setters each key holds what
      the last setter writing it wrote, and keys no setter writes keep
      their earlier value. */
  lemma {:induction false} ChainLastWriteWins(c: Client, ops: seq<Setter>, key: string)
    ensures key in Chain(c, ops).query <==> key in c.query || LastWrite(ops, key).Some?
    ensures LastWrite(ops, key).Some? ==> Chain(c, ops).query[key] == LastWrite(ops, key).value
    ensures LastWrite(ops, key).None? && key in c.query ==> Chain(c, ops).query[key] == c.query[key]
    decreases |ops|
  {
    if ops != [] {
      ChainLastWriteWins(Apply(c, ops[0]), ops[1..], key);
    }
  }

  /** No chain of public setters can lose or spoil the API token. */
  lemma {:induction false} ChainKeepsValid(c: Client, ops: seq<Setter>)
    requires Valid(c)
    ensures Valid(Chain(c, ops))
    ensures Chain(c, ops).query["api_token"] == c.query["api_token"]
    decreases |ops|
  {
    if ops != [] {
      ChainKeepsValid(Apply(c, ops[0]), ops[1..]);
    }
  }

  /** Calling a setter twice keeps only the second value:
      setInclude("a")->setInclude("b") leaves include = "b". */
  lemma SameKeyOverwrites(c: Client, first: Setter, second: Setter)
    requires Key(first) == Key(second)
    ensures Apply(Apply(c, first), second) == Apply(c, second)
  {
    OverwritesTwice(c.query, Apply(c, first).query, Apply(Apply(c, first), second).query,
      Apply(c, second).query, Key(first), Written(first), Written(second));
  }

  /** Writing a key twice leaves the map the second write alone would leave. */
  lemma OverwritesTwice(m: map<string, Val>, m1: map<string, Val>, m12: map<string, Val>,
                        m2: map<string, Val>, k: string, v1: Val, v2: Val)
    requires Overwrites(m, m1, k, v1) && Overwrites(m1, m12, k, v2) && Overwrites(m, m2, k, v2)
    ensures m12 == m2
  {
    assert m12.Keys == m2.Keys;
    forall j | j in m12 ensures m12[j] == m2[j] {
      if j != k {
        assert m12[j] == m1[j] == m[j] == m2[j];
      }
    }
  }

  /** Setters writing different keys do not interfere, so their order does not matter. */
  lemma DistinctKeysCommute(c: Client, first: Setter, second: Setter)
    requires Key(first) != Key(second)
    ensures Apply(Apply(c, first), second) == Apply(Apply(c, second), first)
  {
    var ab := Apply(Apply(c, first), second);
    var ba := Apply(Apply(c, second), first);
    OverwritesCommute(c.query, Apply(c, first).query, ab.query, Apply(c, second).query, ba.query,
      Key(first), Written(first), Key(second), Written(second));
  }

  /** Two writes to different keys, in either order, end in the same map. */
  lemma OverwritesCommute(m: map<string, Val>, m1: map<string, Val>, m12: map<string, Val>,
                          m2: map<string, Val>, m21: map<string, Val>,
                          k1: string, v1: Val, k2: string, v2: Val)
    requires k1 != k2
    requires Overwrites(m, m1, k1, v1) && Overwrites(m1, m12, k2, v2)
    requires Overwrites(m, m2, k2, v2) && Overwrites(m2, m21, k1, v1)
    ensures m12 == m21
  {
    assert m12.Keys == m21.Keys;
    forall k | k in m12 ensures m12[k] == m21[k] {
      if k != k1 && k != k2 {
        assert m12[k] == m1[k] == m[k] == m2[k] == m21[k];
      }
    }
  }

  // ---------------------------------------------------------------------
  // call()

  /** A GET request as handed to the HTTP client: base URI, relative path
      and the query parameters. */
  datatype Request = Request(verb: string, baseUri: string, url: string, query: map<string, Val>)

  /** What the HTTP client does with a request: return the body, or throw
      one of the four Symfony exception kinds, each with a message and a code. */
  datatype TransportOutcome =
    | Content(body: string)
    | TransportFailure(message: string, code: int)
    | RedirectionFailure(message: string, code: int)
    | ClientFailure(message: string, code: int)
    | ServerFailure(message: string, code: int)

  datatype ApiRequestException = ApiRequestException(message: string, code: int)

  /** What one call() did: the requests it sent and what it returned or threw. */
  datatype Dispatch = Dispatch(sent: seq<Request>, result: Result<string, ApiRequestException>)

  /** The catch blocks of call(): every failure kind becomes an
      ApiRequestException with the same message and code. */
  function Normalize(outcome: TransportOutcome): (r: Result<string, ApiRequestException>)
    ensures r.Success? <==> outcome.Content?
    ensures r.Success? ==> r.value == outcome.body
    ensures r.Failure? ==> r.error.message == outcome.message && r.error.code == outcome.code
  {
    match outcome
    case Content(body) => Success(body)
    case TransportFailure(m, code) => Failure(ApiRequestException(m, code))
    case RedirectionFailure(m, code) => Failure(ApiRequestException(m, code))
    case ClientFailure(m, code) => Failure(ApiRequestException(m, code))
    case ServerFailure(m, code) => Failure(ApiRequestException(m, code))
  }

  /** call($url): one GET carrying exactly the current query map; the body
      on success, the normalised exception on any transport failure. */
  function Call(c: Client, url: string, transport: Request -> TransportOutcome): (d: Dispatch)
    ensures |d.sent| == 1
    ensures d.sent[0] == Request("GET", BaseUri, url, c.query)
    ensures d.result.Success? <==> transport(d.sent[0]).Content?
    ensures d.result.Success? ==> d.result.value == transport(d.sent[0]).body
    ensures d.result.Failure? ==>
      d.result.error == ApiRequestException(transport(d.sent[0]).message, transport(d.sent[0]).code)
  {
    var request := Request("GET", BaseUri, url, c.query);
    Dispatch([request], Normalize(transport(request)))
  }

  /** The exception does not reveal which failure kind caused it: failures
      with the same message and code are indistinguishable after call(). */
  lemma FailureKindForgotten(a: TransportOutcome, b: TransportOutcome)
    requires !a.Content? && !b.Content?
    requires a.message == b.message && a.code == b.code
    ensures Normalize(a) == Normalize(b)
  {
  }

  /** setPage(2)->setPerPage(25)->setInclude("events")->call("fixtures")
      sends page 2, per_page 25, include "events" and the stored token. */
  lemma ChainThenCall(c: Client, transport: Request -> TransportOutcome)
    requires Valid(c)
    ensures var q := Call(SetInclude(SetPerPage(SetPage(c, 2), 25), Raw("events")), "fixtures", transport).sent[0].query;
      && q["page"] == Int(2) && q["per_page"] == Int(25) && q["include"] == Str("events")
      && q["api_token"] == c.query["api_token"]
  {
  }
}
