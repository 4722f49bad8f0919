/** The frontend's call into the backend API. Each parameter is classified
    as a query parameter (a primitive, or an object whose `toJSON` yields a
    primitive) or a body parameter (any other object); query parameters go
    into the URL's search parameters, and body parameters, when there are
    any, become a JSON body sent with POST. Failures are turned into a
    NetworkError (only for a TypeError from `fetch`) or an HttpError (for
    a response that is not ok); a body that cannot be read as JSON rejects
    with its own error, which neither of those handlers touches. */
module BackendService {
  import opened Util

  /** The JavaScript values a parameter can hold. An object carries its own
      entries and the result of its `toJSON` method, None when it has none
      or it returns undefined. Numbers are integral here. */
  datatype JsValue =
    | JsNumber(n: int)
    | JsString(s: string)
    | JsBool(b: bool)
    | JsObject(entries: seq<(string, JsValue)>, toJson: Option<JsValue>)

  predicate IsPrimitive(v: JsValue)
  {
    !v.JsObject?
  }

  datatype HttpParamValue = Query(queryValue: JsValue) | Body(bodyValue: JsValue)

  /** `httpParamValue`: a primitive is a query value as it is; an object is
      replaced by its `toJSON` result when it has one, and the outcome is a
      query value when primitive and a body value otherwise. */
  function ClassifyParam(v: JsValue): (r: HttpParamValue)
    ensures r.Query? ==> IsPrimitive(r.queryValue)
    ensures r.Body? ==> r.bodyValue.JsObject?
    ensures IsPrimitive(v) ==> r == Query(v)
    ensures v.JsObject? && v.toJson.None? ==> r == Body(v)
    ensures v.JsObject? && v.toJson.Some? ==> ((r.Query? <==> IsPrimitive(v.toJson.value))
      && (r.Query? ==> r.queryValue == v.toJson.value) && (r.Body? ==> r.bodyValue == v.toJson.value))
  {
    var json := if v.JsObject? && v.toJson.Some? then v.toJson.value else v;
    if IsPrimitive(json) then Query(json) else Body(json)
  }

  type Param = (string, JsValue)

  /** The accumulator of the `reduce`: query and body parameters so far. */
  datatype Split = Split(queryParams: seq<Param>, bodyParams: seq<Param>)

  /** One step of the `reduce`: the classified parameter is appended to its list. */
  function SplitStep(acc: Split, p: Param): Split
  {
    match ClassifyParam(p.1)
    case Query(q) => Split(acc.queryParams + [(p.0, q)], acc.bodyParams)
    case Body(b) => Split(acc.queryParams, acc.bodyParams + [(p.0, b)])
  }

  /** `Object.entries(params).reduce(...)`, from the empty accumulator. */
  function SplitParams(params: seq<Param>): (r: Split)
    ensures |r.queryParams| + |r.bodyParams| == |params|
    ensures forall q :: q in r.queryParams ==> IsPrimitive(q.1)
    ensures forall b :: b in r.bodyParams ==> b.1.JsObject?
  {
    if params == [] then Split([], [])
    else SplitStep(SplitParams(params[..|params| - 1]), params[|params| - 1])
  }

  /** The query parameters, independently: the entries classified as query
      values, in entry order. */
  function QueryParams(params: seq<Param>): seq<Param>
  {
    if params == [] then []
    else
      (match ClassifyParam(params[0].1)
       case Query(q) => [(params[0].0, q)]
       case Body(_) => []) + QueryParams(params[1..])
  }

  /** The body parameters, independently, in entry order. */
  function BodyParams(params: seq<Param>): seq<Param>
  {
    if params == [] then []
    else
      (match ClassifyParam(params[0].1)
       case Query(_) => []
       case Body(b) => [(params[0].0, b)]) + BodyParams(params[1..])
  }

  lemma {:induction false} QueryParamsAppend(a: seq<Param>, b: seq<Param>)
    ensures QueryParams(a + b) == QueryParams(a) + QueryParams(b)
    ensures BodyParams(a + b) == BodyParams(a) + BodyParams(b)
  {
    if a != [] {
      assert (a + b)[1..] == a[1..] + b;
      QueryParamsAppend(a[1..], b);
    } else {
      assert a + b == b;
    }
  }

  /** The `reduce` puts each entry in exactly one list, keeping entry order:
      it is the pair of filters. */
  lemma {:induction false} SplitIsFilters(params: seq<Param>)
    ensures SplitParams(params) == Split(QueryParams(params), BodyParams(params))
  {
    if params != [] {
      var init, last := params[..|params| - 1], params[|params| - 1];
      SplitIsFilters(init);
      assert params == init + [last];
      QueryParamsAppend(init, [last]);
    }
  }

  /** `value.toString()` of a query value. */
  function ToString(v: JsValue): string
    requires IsPrimitive(v)
  {
    match v
    case JsNumber(n) => DecimalString(n)
    case JsString(s) => s
    case JsBool(b) => if b then "true" else "false"
  }

  /** The names of a list of search parameters. */
  function Names(entries: seq<(string, string)>): seq<string>
  {
    seq(|entries|, i requires 0 <= i < |entries| => entries[i].0)
  }

  /** The entries not named `name`, in order, with their repetitions. */
  function Others(entries: seq<(string, string)>, name: string): seq<(string, string)>
  {
    if entries == [] then []
    else (if entries[0].0 == name then [] else [entries[0]]) + Others(entries[1..], name)
  }

  lemma {:induction false} OthersAppendNamed(entries: seq<(string, string)>, name: string, value: string)
    ensures Others(entries + [(name, value)], name) == Others(entries, name)
  {
    if entries == [] {
      assert ([] + [(name, value)])[1..] == [];
    } else {
      assert (entries + [(name, value)])[1..] == entries[1..] + [(name, value)];
      OthersAppendNamed(entries[1..], name, value);
    }
  }

  /** The entries with the first one named `name` set to `value` and the
      later ones of that name dropped (`dropping` once it has been set). */
  function SetFirstDropRest(entries: seq<(string, string)>, name: string, value: string, dropping: bool)
    : (r: seq<(string, string)>)
    ensures forall e :: e in r && e.0 != name <==> e in entries && e.0 != name
    ensures dropping ==> forall e :: e in r ==> e.0 != name
    ensures !dropping && name in Names(entries) ==> Count(Names(r), name) == 1 && (name, value) in r
  {
    if entries == [] then []
    else if entries[0].0 == name then
      if dropping then SetFirstDropRest(entries[1..], name, value, true)
      else
        var rest := SetFirstDropRest(entries[1..], name, value, true);
        assert Count(Names(rest), name) == 0 by { CountAbsent(Names(rest), name); }
        assert Names([(name, value)] + rest) == [name] + Names(rest);
        [(name, value)] + rest
    else
      var rest := SetFirstDropRest(entries[1..], name, value, dropping);
      assert Names([entries[0]] + rest) == [entries[0].0] + Names(rest);
      assert Names(entries) == [entries[0].0] + Names(entries[1..]);
      [entries[0]] + rest
  }

  /** Setting keeps the entries of other names, in order and with their
      repetitions. */
  lemma {:induction false} SetFirstDropRestOthers(entries: seq<(string, string)>, name: string, value: string, dropping: bool)
    ensures Others(SetFirstDropRest(entries, name, value, dropping), name) == Others(entries, name)
  {
    if entries != [] {
      SetFirstDropRestOthers(entries[1..], name, value, entries[0].0 == name || dropping);
      var rest := SetFirstDropRest(entries[1..], name, value, entries[0].0 == name || dropping);
      if entries[0].0 == name && !dropping {
        assert ([(name, value)] + rest)[1..] == rest;
      } else if entries[0].0 != name {
        assert ([entries[0]] + rest)[1..] == rest;
      }
    }
  }

  /** The entries before the first one of that name are untouched and the
      value lands at that entry's position. */
  lemma {:induction false} SetFirstDropRestPosition(entries: seq<(string, string)>, name: string, value: string)
    requires name in Names(entries)
    ensures var r, k := SetFirstDropRest(entries, name, value, false), FindIndex(Names(entries), name);
      k < |r| && r[..k] == entries[..k] && r[k] == (name, value)
  {
    var ns := Names(entries);
    assert ns[0] == entries[0].0;
    if entries[0].0 != name {
      assert ns[1..] == Names(entries[1..]);
      assert name in Names(entries[1..]);
      SetFirstDropRestPosition(entries[1..], name, value);
      var rest := SetFirstDropRest(entries[1..], name, value, false);
      var k' := FindIndex(Names(entries[1..]), name);
      assert FindIndex(ns, name) == k' + 1;
      var r := [entries[0]] + rest;
      assert r[..k' + 1] == [entries[0]] + rest[..k'];
      assert entries[..k' + 1] == [entries[0]] + entries[1..][..k'];
    }
  }

  lemma CountAbsent(s: seq<string>, x: string)
    requires forall i :: 0 <= i < |s| ==> s[i] != x
    ensures Count(s, x) == 0
  {
    CountPositiveIffIn(s, x);
  }

  /** `URLSearchParams.set(name, value)`: the first entry of that name takes
      the value and the others are removed, or the entry is appended. */
  function SetEntry(entries: seq<(string, string)>, name: string, value: string): (r: seq<(string, string)>)
    ensures Count(Names(r), name) == 1 && (name, value) in r
    ensures Others(r, name) == Others(entries, name)
    ensures forall e :: e in r && e.0 != name <==> e in entries && e.0 != name
    ensures name in Names(entries) ==> var k := FindIndex(Names(entries), name);
      k < |r| && r[..k] == entries[..k] && r[k] == (name, value)
    ensures name !in Names(entries) ==> r == entries + [(name, value)]
  {
    if name in Names(entries) then
      SetFirstDropRestOthers(entries, name, value, false);
      SetFirstDropRestPosition(entries, name, value);
      SetFirstDropRest(entries, name, value, false)
    else
      CountAbsent(Names(entries), name);
      CountAppend(Names(entries), [name], name);
      assert Names(entries + [(name, value)]) == Names(entries) + [name];
      OthersAppendNamed(entries, name, value);
      entries + [(name, value)]
  }

  /** The search parameters after setting each query parameter in turn. */
  function SetAll(entries: seq<(string, string)>, queryParams: seq<Param>): seq<(string, string)>
    requires forall q :: q in queryParams ==> IsPrimitive(q.1)
  {
    if queryParams == [] then entries
    else
      var last := queryParams[|queryParams| - 1];
      SetEntry(SetAll(entries, queryParams[..|queryParams| - 1]), last.0, ToString(last.1))
  }

  /** The URL of a request, reduced to its search parameters. */
  class RequestUrl {
    var searchParams: seq<(string, string)>

    constructor()
      ensures searchParams == []
    {
      searchParams := [];
    }

    method Set(name: string, value: string)
      modifies this
      ensures searchParams == SetEntry(old(searchParams), name, value)
    {
      searchParams := SetEntry(searchParams, name, value);
    }
  }

  /** `queryParams.forEach(p => req.searchParams.set(p.name, p.value.toString()))`. */
  method SetQueryParams(req: RequestUrl, queryParams: seq<Param>)
    requires forall q :: q in queryParams ==> IsPrimitive(q.1)
    modifies req
    ensures req.searchParams == SetAll(old(req.searchParams), queryParams)
  {
    var i := 0;
    while i < |queryParams|
      invariant 0 <= i <= |queryParams|
      invariant req.searchParams == SetAll(old(req.searchParams), queryParams[..i])
    {
      assert queryParams[..i + 1][..i] == queryParams[..i];
      req.Set(queryParams[i].0, ToString(queryParams[i].1));
      i := i + 1;
    }
    assert queryParams[..i] == queryParams;
  }

  /** With distinct parameter names (as object entries have), a fresh URL
      ends up with one search parameter per query parameter, in order, each
      holding its value's string. */
  lemma {:induction false} SetAllDistinct(queryParams: seq<Param>)
    requires forall q :: q in queryParams ==> IsPrimitive(q.1)
    requires forall i, j :: 0 <= i < j < |queryParams| ==> queryParams[i].0 != queryParams[j].0
    ensures |SetAll([], queryParams)| == |queryParams|
    ensures forall i :: 0 <= i < |queryParams| ==>
      SetAll([], queryParams)[i] == (queryParams[i].0, ToString(queryParams[i].1))
  {
    if queryParams != [] {
      var n := |queryParams|;
      var init, last := queryParams[..n - 1], queryParams[n - 1];
      SetAllDistinct(init);
      var before := SetAll([], init);
      assert last.0 !in Names(before) by {
        forall k | 0 <= k < |before| ensures Names(before)[k] != last.0 {
          assert before[k].0 == queryParams[k].0;
        }
      }
      var after := SetAll([], queryParams);
      assert after == SetEntry(before, last.0, ToString(last.1));
      assert after == before + [(last.0, ToString(last.1))];
      forall i | 0 <= i < n ensures after[i] == (queryParams[i].0, ToString(queryParams[i].1)) {
        if i < n - 1 {
          assert after[i] == before[i] && queryParams[i] == init[i];
        }
      }
    }
  }

  /** What is serialised as the request body: nothing without body
      parameters, the lone value for one, and an object keyed by parameter
      name for several. */
  function BodyPayload(bodyParams: seq<Param>): (r: Option<JsValue>)
    ensures r.None? <==> bodyParams == []
    ensures |bodyParams| == 1 ==> r == Some(bodyParams[0].1)
    ensures |bodyParams| >= 2 ==> r == Some(JsObject(bodyParams, None))
  {
    match |bodyParams|
    case 0 => None
    case 1 => Some(bodyParams[0].1)
    case _ => Some(JsObject(bodyParams, None))
  }

  datatype RequestInit = Get | Post(contentType: string, body: JsValue)

  const JsonContentType: string := "application/json;charset=utf-8"

  /** The request options: POST with a JSON content type exactly when a
      body exists. */
  function RequestFor(params: seq<Param>): (r: RequestInit)
    ensures r.Post? <==> BodyParams(params) != []
    ensures r.Post? ==> r.contentType == JsonContentType && Some(r.body) == BodyPayload(BodyParams(params))
  {
    SplitIsFilters(params);
    match BodyPayload(SplitParams(params).bodyParams)
    case None => Get
    case Some(b) => Post(JsonContentType, b)
  }

  /** A request is POST exactly when some parameter is an object whose
      `toJSON` is missing or yields an object. */
  lemma {:induction false} PostIffObjectParam(params: seq<Param>)
    ensures RequestFor(params).Post? <==>
      exists i :: 0 <= i < |params| && params[i].1.JsObject? &&
        (params[i].1.toJson.None? || params[i].1.toJson.value.JsObject?)
  {
    BodyParamsNonEmpty(params);
  }

  lemma {:induction false} BodyParamsNonEmpty(params: seq<Param>)
    ensures BodyParams(params) != [] <==>
      exists i :: 0 <= i < |params| && params[i].1.JsObject? &&
        (params[i].1.toJson.None? || params[i].1.toJson.value.JsObject?)
  {
    if params != [] {
      BodyParamsNonEmpty(params[1..]);
      var p := params[0].1;
      if exists i :: 0 <= i < |params[1..]| && params[1..][i].1.JsObject? &&
          (params[1..][i].1.toJson.None? || params[1..][i].1.toJson.value.JsObject?) {
        var i :| 0 <= i < |params[1..]| && params[1..][i].1.JsObject? &&
          (params[1..][i].1.toJson.None? || params[1..][i].1.toJson.value.JsObject?);
        assert params[i + 1] == params[1..][i];
      }
      if exists i :: 0 <= i < |params| && params[i].1.JsObject? &&
          (params[i].1.toJson.None? || params[i].1.toJson.value.JsObject?) {
        var i :| 0 <= i < |params| && params[i].1.JsObject? &&
          (params[i].1.toJson.None? || params[i].1.toJson.value.JsObject?);
        if i > 0 { assert params[1..][i - 1] == params[i]; }
      }
    }
  }

  /** A rejection of `fetch`, or an error thrown later. */
  datatype JsError =
    | TypeError(message: string)
    | OtherError(name: string, message: string)
    | NetworkError(message: string)
    | HttpError(message: string)
    | SyntaxError(message: string)  // `response.json()` on a body that is not JSON

  /** `Error.prototype.toString`: the name, then ": " and the message when
      there is one. */
  function ErrorString(name: string, message: string): string
  {
    if message == "" then name else name + ": " + message
  }

  function CauseString(e: JsError): string
  {
    match e
    case TypeError(m) => ErrorString("TypeError", m)
    case OtherError(n, m) => ErrorString(n, m)
    case NetworkError(m) => ErrorString("NetworkError", m)
    case HttpError(m) => ErrorString("HttpError", m)
    case SyntaxError(m) => ErrorString("SyntaxError", m)
  }

  /** `throwNetworkError(url, msg)(cause)`: the error that is thrown. */
  function NetworkFailure(url: string, msg: string, cause: JsError): (r: JsError)
    ensures r.NetworkError? <==> cause.TypeError? || cause.NetworkError?
    ensures !cause.TypeError? ==> r == cause
    ensures cause.TypeError? ==>
      r.message == msg + " Unable to reach '" + url + "' Cause: " + CauseString(cause)
  {
    if cause.TypeError? then NetworkError(msg + " Unable to reach '" + url + "' Cause: " + CauseString(cause))
    else cause
  }

  /** The part of a response the checks look at. `body` is how reading it
      settles (`response.json()` or `response.text()`): the content, or the
      rejection, a SyntaxError when the body is not JSON. */
  datatype Response = Response(ok: bool, status: int, headersJson: string, body: Result<string, JsError>)

  /** `jsonOrThrowHttpError` and `textOrThrowHttpError`: an ok response
      settles as its body does; any other gives an HttpError naming the URL
      and the status. */
  function ContentOrHttpError(url: string, msg: string, response: Response): (r: Result<string, JsError>)
    ensures r.Ok? <==> response.ok && response.body.Ok?
    ensures r.Ok? ==> r.value == response.body.value
    ensures response.ok && response.body.Err? ==> r == Err(response.body.error)
    ensures !response.ok ==> r == Err(HttpError(
      msg + " Requested resource: '" + url + "' Status " + DecimalString(response.status)
        + " Headers: " + response.headersJson))
  {
    if response.ok then response.body
    else Err(HttpError(msg + " Requested resource: '" + url + "' Status " + DecimalString(response.status)
      + " Headers: " + response.headersJson))
  }

  /** The outcome of a fetch: the response's content, or the error thrown.
      The network handler runs before the response is looked at, so a body
      that fails to parse is not turned into a NetworkError. */
  function Fetched(url: string, msg: string, outcome: Result<Response, JsError>): (r: Result<string, JsError>)
    ensures r.Ok? <==> outcome.Ok? && outcome.value.ok && outcome.value.body.Ok?
    ensures r.Ok? ==> r.value == outcome.value.body.value
    ensures outcome.Err? && outcome.error.TypeError? ==> r.Err? && r.error.NetworkError?
    ensures outcome.Err? && !outcome.error.TypeError? ==> r == Err(outcome.error)
    ensures outcome.Ok? && !outcome.value.ok ==> r.Err? && r.error.HttpError?
    ensures outcome.Ok? && outcome.value.ok && outcome.value.body.Err? ==> r == Err(outcome.value.body.error)
  {
    match outcome
    case Err(cause) => Err(NetworkFailure(url, msg, cause))
    case Ok(response) => ContentOrHttpError(url, msg, response)
  }
}
