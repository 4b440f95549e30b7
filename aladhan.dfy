/** The request and response helpers of the Aladhan provider
    (src/aladhan-provider.js): the `DD-MM-YYYY` date parameter, the
    calculation-method lookup, the query string, and the rules that accept or
    reject a response and pick the five timings out of it. The network call
    itself is not modelled; a response is an input. */
module Aladhan {
  import opened JsBuiltins
  import opened TimeFormat
  import opened Prayers

  // ---------------------------------------------------------------------
  // JSON values

  /** A parsed JSON value. Numbers are integers here. */
  datatype Json =
    | JNull
    | JBool(b: bool)
    | JNum(n: int)
    | JStr(s: string)
    | JArr(items: seq<Json>)
    | JObj(fields: map<string, Json>)

  /** JavaScript truthiness of a JSON value. */
  predicate Truthy(v: Json) {
    match v
    case JNull => false
    case JBool(b) => b
    case JNum(n) => n != 0
    case JStr(s) => s != ""
    case _ => true
  }

  /** Truthiness of a property read; undefined is falsy. */
  predicate Present(v: Option<Json>) {
    v.Some? && Truthy(v.value)
  }

  /** `v[k]` on a value other than null: an object's own field, otherwise
      undefined (none of the keys read here exist on arrays or primitives). */
  function Get(v: Json, k: string): (r: Option<Json>)
    ensures r.Some? <==> v.JObj? && k in v.fields
  {
    if v.JObj? && k in v.fields then Some(v.fields[k]) else None
  }

  /** `Get` on a property read that may itself be undefined. */
  function GetOpt(v: Option<Json>, k: string): Option<Json> {
    if v.Some? then Get(v.value, k) else None
  }

  // ---------------------------------------------------------------------
  // pad and formatDDMMYYYY

  /** The parts of a `Date` that the provider reads: `getFullYear()`,
      `getMonth()` (0-based) and `getDate()`. */
  datatype CalendarDate = CalendarDate(year: int, month0: int, day: int)

  predicate ValidDate(d: CalendarDate) {
    d.year >= 0 && 0 <= d.month0 < 12 && 1 <= d.day <= 31
  }

  /** `pad(n)`: the same rule as the widget's padding, a number below 10
      gets a leading '0'. */
  function Pad(n: int): string {
    PadNumber(Int(n))
  }

  /** Below 100, `pad` gives exactly two digits, which read back as `n`;
      from 10 on it is the plain decimal text. */
  lemma PadWidth(n: nat)
    requires n < 100
    ensures Pad(n) == TwoDigits(n) && DigitsValue(Pad(n)) == n
    ensures n >= 10 ==> Pad(n) == NatToString(n)
  {
    PadNumberTwoDigits(n);
    TwoDigitsValue(n);
  }

  /** `formatDDMMYYYY(d)`: the given date, or today's when none is given, as
      day, month (the 0-based month plus one) and year joined by '-'. */
  function FormatDDMMYYYY(d: Option<CalendarDate>, today: CalendarDate): string {
    var dt := if d.Some? then d.value else today;
    Pad(dt.day) + "-" + Pad(dt.month0 + 1) + "-" + IntToString(dt.year)
  }

  /** Reading a `DD-MM-YYYY` string back into its three numbers. */
  function ParseDDMMYYYY(s: string): Option<(int, int, int)> {
    var parts := Split(s, '-');
    if |parts| != 3 then None
    else
      match (ParseInt(parts[0]), ParseInt(parts[1]), ParseInt(parts[2]))
      case (Int(day), Int(month), Int(year)) => Some((day, month, year))
      case _ => None
  }

  /** For a valid date the parameter has two-digit day and month fields, and
      reading it back gives the day, the 1-based month and the year. */
  lemma FormatDDMMYYYYRoundTrip(d: Option<CalendarDate>, today: CalendarDate)
    requires ValidDate(if d.Some? then d.value else today)
    ensures var dt := if d.Some? then d.value else today;
            var s := FormatDDMMYYYY(d, today);
            |s| >= 7 && s[2] == '-' && s[5] == '-'
            && ParseDDMMYYYY(s) == Some((dt.day, dt.month0 + 1, dt.year))
  {
    var dt := if d.Some? then d.value else today;
    var a, b, c := TwoDigits(dt.day), TwoDigits(dt.month0 + 1), NatToString(dt.year);
    TwoDigitsValue(dt.day);
    TwoDigitsValue(dt.month0 + 1);
    NatToStringDigits(dt.year);
    DigitsValueOfNatToString(dt.year);
    FormatIsJoin(d, today);
    ParseThree(a, b, c);
  }

  lemma FormatIsJoin(d: Option<CalendarDate>, today: CalendarDate)
    requires ValidDate(if d.Some? then d.value else today)
    ensures var dt := if d.Some? then d.value else today;
            FormatDDMMYYYY(d, today)
              == Join([TwoDigits(dt.day), TwoDigits(dt.month0 + 1), NatToString(dt.year)], "-")
  {
    var dt := if d.Some? then d.value else today;
    var a, b, c := TwoDigits(dt.day), TwoDigits(dt.month0 + 1), NatToString(dt.year);
    PadNumberTwoDigits(dt.day);
    PadNumberTwoDigits(dt.month0 + 1);
    assert IntToString(dt.year) == c;
    assert Join([b, c], "-") == b + "-" + c;
    assert Join([a, b, c], "-") == a + "-" + (b + "-" + c);
  }

  /** Three digit strings joined by '-' parse back into their values. */
  lemma ParseThree(a: string, b: string, c: string)
    requires a != [] && b != [] && c != []
    requires AllDigits(a) && AllDigits(b) && AllDigits(c)
    ensures var s := Join([a, b, c], "-");
            |s| == |a| + |b| + |c| + 2 && s[|a|] == '-' && s[|a| + |b| + 1] == '-'
            && ParseDDMMYYYY(s) == Some((DigitsValue(a) as int, DigitsValue(b) as int, DigitsValue(c) as int))
  {
    var s := Join([a, b, c], "-");
    assert Join([b, c], "-") == b + "-" + c;
    assert s == a + "-" + (b + "-" + c);
    assert '-' !in a && '-' !in b && '-' !in c;
    SplitJoin([a, b, c], '-');
    ParseIntOfDigits(a);
    ParseIntOfDigits(b);
    ParseIntOfDigits(c);
  }

  // ---------------------------------------------------------------------
  // resolveMethod

  /** The `method` option: null/undefined, a number, or anything else, which
      `String(method)` turns into text. */
  datatype MethodOption = NoMethod | MethodNumber(n: int) | MethodText(s: string)

  /** METHOD_MAP: the one method name the provider knows. */
  const MethodMap: map<string, int> := map["karachi" := 2]

  /** `resolveMethod(method)` with a lookup of the lower-cased text among the
      map's own names: null stays undefined, a number is used as it is, and a
      name resolves exactly when it is "karachi" in any letter case. */
  function ResolveMethod(m: MethodOption): (r: Option<int>)
    ensures m.NoMethod? ==> r.None?
    ensures m.MethodNumber? ==> r == Some(m.n)
    ensures m.MethodText? ==> (r.Some? <==> Lower(m.s) == "karachi")
    ensures m.MethodText? && r.Some? ==> r == Some(2)
  {
    match m
    case NoMethod => None
    case MethodNumber(n) => Some(n)
    case MethodText(s) =>
      var key := Lower(s);
      if key in MethodMap then Some(MethodMap[key]) else None
  }

  /** What `METHOD_MAP[key]` reads on an ordinary object: an own property, a
      property inherited from Object.prototype, or undefined. */
  datatype Lookup = Undefined | OwnNumber(n: int) | Inherited(name: string)

  /** The all-lower-case property names of Object.prototype. */
  const PrototypeNames: set<string> := {"constructor", "__proto__"}

  /** `resolveMethod` as written: `METHOD_MAP[key] != null` also holds for a
      name inherited from Object.prototype, which is then returned. */
  function ResolveMethodAsWritten(m: MethodOption): (r: Lookup)
    ensures r.Inherited? ==> m.MethodText? && Lower(m.s) == r.name
  {
    match m
    case NoMethod => Undefined
    case MethodNumber(n) => OwnNumber(n)
    case MethodText(s) =>
      var key := Lower(s);
      if key in MethodMap then OwnNumber(MethodMap[key])
      else if key in PrototypeNames then Inherited(key)
      else Undefined
  }

  /** The name "Constructor" resolves, as written, to the inherited
      `Object` constructor instead of undefined. */
  lemma ConstructorResolves(s: string)
    requires s == "Constructor"
    ensures ResolveMethodAsWritten(MethodText(s)) == Inherited("constructor")
    ensures ResolveMethod(MethodText(s)) == None
  {
    assert Lower(s) == "constructor";
  }

  /** The corrected lookup agrees with the written one wherever the written one
      yields a number or undefined. */
  lemma ResolveMethodAgrees(m: MethodOption)
    ensures ResolveMethodAsWritten(m) == Undefined ==> ResolveMethod(m) == None
    ensures forall n :: ResolveMethodAsWritten(m) == OwnNumber(n) <==> ResolveMethod(m) == Some(n)
  {
  }

  // ---------------------------------------------------------------------
  // toQuery

  /** One entry of a params object, in enumeration order; None stands for a
      null or undefined value, a present value is its text `String(value)`. */
  datatype Param = Param(key: string, value: Option<string>)

  /** The `key=value` pieces that `toQuery` pushes for `params`, where `enc`
      stands for `encodeURIComponent`. */
  function QueryParts(params: seq<Param>, enc: string -> string): seq<string> {
    if params == [] then []
    else
      var init := QueryParts(params[..|params| - 1], enc);
      var p := params[|params| - 1];
      if p.value.Some? then init + [enc(p.key) + "=" + enc(p.value.value)] else init
  }

  /** The entries whose value is neither null nor undefined, in order. */
  function Defined(params: seq<Param>): (r: seq<(string, string)>)
    ensures |r| <= |params|
  {
    if params == [] then []
    else
      var init := Defined(params[..|params| - 1]);
      var p := params[|params| - 1];
      if p.value.Some? then init + [(p.key, p.value.value)] else init
  }

  /** `toQuery(params)`: one `key=value` piece per defined entry, in order,
      joined by '&'. */
  method ToQuery(params: seq<Param>, enc: string -> string) returns (q: string)
    ensures q == Join(QueryParts(params, enc), "&")
  {
    var s: seq<string> := [];
    var i := 0;
    while i < |params|
      invariant 0 <= i <= |params|
      invariant s == QueryParts(params[..i], enc)
    {
      assert params[..i + 1][..i] == params[..i];
      if params[i].value.Some? {
        s := s + [enc(params[i].key) + "=" + enc(params[i].value.value)];
      }
      i := i + 1;
    }
    assert params[..i] == params;
    return Join(s, "&");
  }

  /** The pieces correspond one to one to the defined entries. */
  lemma {:induction false} QueryPartsDefined(params: seq<Param>, enc: string -> string)
    ensures |QueryParts(params, enc)| == |Defined(params)|
    ensures forall i :: 0 <= i < |Defined(params)| ==>
              QueryParts(params, enc)[i] == enc(Defined(params)[i].0) + "=" + enc(Defined(params)[i].1)
  {
    if params != [] {
      QueryPartsDefined(params[..|params| - 1], enc);
    }
  }

  /** Reading a query string back, with `dec` the inverse of the encoder. */
  function ParseQuery(q: string, dec: string -> string): seq<(string, string)> {
    var pieces := Split(q, '&');
    seq(|pieces|, i requires 0 <= i < |pieces| => Pair(pieces[i], dec))
  }

  function Pair(piece: string, dec: string -> string): (string, string) {
    var kv := Split(piece, '=');
    (dec(kv[0]), if |kv| > 1 then dec(kv[1]) else "")
  }

  /** With an encoder that never produces '&' or '=' (as encodeURIComponent
      does not), and at least one defined entry, the query string is read
      back into exactly the defined entries, in order. */
  lemma QueryRoundTrip(params: seq<Param>, enc: string -> string, dec: string -> string)
    requires forall x :: '&' !in enc(x) && '=' !in enc(x)
    requires forall x :: dec(enc(x)) == x
    requires Defined(params) != []
    ensures ParseQuery(Join(QueryParts(params, enc), "&"), dec) == Defined(params)
  {
    var parts := QueryParts(params, enc);
    var d := Defined(params);
    QueryPartsDefined(params, enc);
    forall i | 0 <= i < |parts| ensures '&' !in parts[i] && Pair(parts[i], dec) == d[i] {
      var a, b := enc(d[i].0), enc(d[i].1);
      assert parts[i] == a + ['='] + b;
      SplitTwo(a, b, '=');
    }
    SplitJoin(parts, '&');
  }

  // ---------------------------------------------------------------------
  // The two requests

  /** The options the two fetch functions read. Coordinates and the other
      free values are given as their text. */
  datatype ProviderOptions = ProviderOptions(
    latitude: Option<string>, longitude: Option<string>,
    city: Option<string>, country: Option<string>, state: Option<string>,
    calcMethod: MethodOption, school: Option<int>, date: Option<CalendarDate>)

  function NumberText(n: Option<int>): Option<string> {
    if n.Some? then Some(IntToString(n.value)) else None
  }

  /** The params object of `fetchTimesByCoords`. */
  function CoordsParams(o: ProviderOptions, today: CalendarDate): seq<Param> {
    [Param("latitude", o.latitude), Param("longitude", o.longitude),
     Param("method", NumberText(ResolveMethod(o.calcMethod))),
     Param("school", NumberText(o.school)),
     Param("date", Some(FormatDDMMYYYY(o.date, today)))]
  }

  /** The params object of `fetchTimesByCity`. */
  function CityParams(o: ProviderOptions, today: CalendarDate): seq<Param> {
    [Param("city", o.city), Param("country", o.country), Param("state", o.state),
     Param("method", NumberText(ResolveMethod(o.calcMethod))),
     Param("school", NumberText(o.school)),
     Param("date", Some(FormatDDMMYYYY(o.date, today)))]
  }

  /** The keys a param list sends, in order. */
  function SentKeys(params: seq<Param>): seq<string> {
    var d := Defined(params);
    seq(|d|, i requires 0 <= i < |d| => d[i].0)
  }

  /** A request by city sends the date always and every other listed key only
      when its value is defined: `state` and `school` when given, `method`
      when it resolves. */
  lemma CityKeys(o: ProviderOptions, today: CalendarDate)
    ensures var keys := SentKeys(CityParams(o, today));
            ("state" in keys <==> o.state.Some?)
            && ("method" in keys <==> ResolveMethod(o.calcMethod).Some?)
            && ("school" in keys <==> o.school.Some?)
            && ("city" in keys <==> o.city.Some?)
            && ("country" in keys <==> o.country.Some?)
            && "date" in keys && |keys| <= 6
            && forall k :: k in keys ==> k in {"city", "country", "state", "method", "school", "date"}
  {
    var ps := CityParams(o, today);
    OnlyListedKeys(ps);
    SentKeyAt(ps, 0);
    SentKeyAt(ps, 1);
    SentKeyAt(ps, 2);
    SentKeyAt(ps, 3);
    SentKeyAt(ps, 4);
    SentKeyAt(ps, 5);
  }

  /** A request by coordinates sends the date always and the other listed
      keys when defined; it never sends a city, country or state. */
  lemma CoordsKeys(o: ProviderOptions, today: CalendarDate)
    ensures var keys := SentKeys(CoordsParams(o, today));
            ("latitude" in keys <==> o.latitude.Some?)
            && ("longitude" in keys <==> o.longitude.Some?)
            && ("method" in keys <==> ResolveMethod(o.calcMethod).Some?)
            && ("school" in keys <==> o.school.Some?)
            && "date" in keys && "city" !in keys && "state" !in keys && "country" !in keys
            && forall k :: k in keys ==> k in {"latitude", "longitude", "method", "school", "date"}
  {
    var ps := CoordsParams(o, today);
    OnlyListedKeys(ps);
    SentKeyAt(ps, 0);
    SentKeyAt(ps, 1);
    SentKeyAt(ps, 2);
    SentKeyAt(ps, 3);
    SentKeyAt(ps, 4);
    KeyNotListed(ps, "city");
    KeyNotListed(ps, "country");
    KeyNotListed(ps, "state");
  }

  /** An entry whose key no other entry has is sent exactly when defined. */
  lemma SentKeyAt(params: seq<Param>, j: nat)
    requires j < |params|
    requires forall i :: 0 <= i < |params| && params[i].key == params[j].key ==> i == j
    ensures params[j].key in SentKeys(params) <==> params[j].value.Some?
  {
    DefinedKeys(params);
  }

  /** Only keys of the entries are sent. */
  lemma OnlyListedKeys(params: seq<Param>)
    ensures forall k :: k in SentKeys(params) ==> exists i :: 0 <= i < |params| && params[i].key == k
  {
    DefinedKeys(params);
  }

  /** A key that no entry has is never sent. */
  lemma KeyNotListed(params: seq<Param>, k: string)
    requires forall i :: 0 <= i < |params| ==> params[i].key != k
    ensures k !in SentKeys(params)
  {
    DefinedKeys(params);
  }

  /** A key is sent exactly when some entry with that key is defined. */
  lemma {:induction false} DefinedKeys(params: seq<Param>)
    ensures forall k :: k in SentKeys(params) <==> exists i :: 0 <= i < |params| && params[i].key == k && params[i].value.Some?
  {
    if params != [] {
      var init := params[..|params| - 1];
      DefinedKeys(init);
      var p := params[|params| - 1];
      assert forall i :: 0 <= i < |init| ==> init[i] == params[i];
      forall k ensures k in SentKeys(params) <==> exists i :: 0 <= i < |params| && params[i].key == k && params[i].value.Some? {
        if p.value.Some? {
          assert SentKeys(params) == SentKeys(init) + [p.key];
        } else {
          assert SentKeys(params) == SentKeys(init);
        }
      }
    }
  }

  const CoordsEndpoint := "https://api.aladhan.com/v1/timings?"
  const CityEndpoint := "https://api.aladhan.com/v1/timingsByCity?"

  /** The URL `fetchTimesByCoords` requests. */
  method CoordsUrl(o: ProviderOptions, today: CalendarDate, enc: string -> string) returns (url: string)
    ensures url == CoordsEndpoint + Join(QueryParts(CoordsParams(o, today), enc), "&")
  {
    var q := ToQuery(CoordsParams(o, today), enc);
    url := CoordsEndpoint + q;
  }

  /** The URL `fetchTimesByCity` requests. */
  method CityUrl(o: ProviderOptions, today: CalendarDate, enc: string -> string) returns (url: string)
    ensures url == CityEndpoint + Join(QueryParts(CityParams(o, today), enc), "&")
  {
    var q := ToQuery(CityParams(o, today), enc);
    url := CityEndpoint + q;
  }

  // ---------------------------------------------------------------------
  // extractTimes and the response checks

  /** The five timings as the provider returns them; a field the response
      lacks is undefined. */
  type Timings = map<Prayer, Option<Json>>

  datatype AladhanError =
    | RequestFailed(status: int)   // 'Aladhan request failed: ' + res.status
    | ServiceError(detail: Option<Json>)   // 'Aladhan error: ' + (json.status || json.code)
    | NullBody                     // reading `code` of a null body throws a TypeError
    | InvalidResponse              // 'Invalid Aladhan response'

  /** `extractTimes(json)`: without a truthy `json`, `json.data` and
      `json.data.timings` it throws; otherwise it copies the five fields of
      the timings object and nothing else. */
  function ExtractTimes(json: Json): (r: Result<Timings, AladhanError>)
    ensures r.Err? <==> !Truthy(json) || !Present(Get(json, "data"))
                        || !Present(GetOpt(Get(json, "data"), "timings"))
    ensures r.Err? ==> r.error == InvalidResponse
    ensures r.Ok? ==> forall p :: p in r.value
                        && r.value[p] == GetOpt(GetOpt(Get(json, "data"), "timings"), Name(p))
  {
    if !Truthy(json) || !Present(Get(json, "data")) || !Present(GetOpt(Get(json, "data"), "timings")) then
      Err(InvalidResponse)
    else
      var t := GetOpt(Get(json, "data"), "timings").value;
      assert forall p :: p in Order by { forall p ensures p in Order { assert Order[Index(p)] == p; } }
      Ok(map p | p in Order :: Get(t, Name(p)))
  }

  /** What `fetch` resolves to: `res.ok`, `res.status` and the parsed body. */
  datatype Response = Response(ok: bool, status: int, body: Json)

  /** The end of `fetchTimesByCoords` and `fetchTimesByCity`: a response that
      is not ok fails with its status; a body whose `code` is not 200 fails
      with its `status` (or, when that is falsy, its `code`); only then are
      the timings extracted. */
  function TimesFromResponse(res: Response): (r: Result<Timings, AladhanError>)
    ensures !res.ok ==> r == Err(RequestFailed(res.status))
    ensures res.ok && res.body.JNull? ==> r == Err(NullBody)
    ensures res.ok && !res.body.JNull? && Get(res.body, "code") != Some(JNum(200)) ==>
              r == Err(ServiceError(if Present(Get(res.body, "status")) then Get(res.body, "status")
                                    else Get(res.body, "code")))
    ensures r.Ok? <==> res.ok && Get(res.body, "code") == Some(JNum(200)) && ExtractTimes(res.body).Ok?
    ensures res.ok && Get(res.body, "code") == Some(JNum(200)) ==> r == ExtractTimes(res.body)
  {
    if !res.ok then Err(RequestFailed(res.status))
    else if res.body.JNull? then Err(NullBody)
    else
      var code := Get(res.body, "code");
      if code != Some(JNum(200)) then
        var status := Get(res.body, "status");
        Err(ServiceError(if Present(status) then status else code))
      else ExtractTimes(res.body)
  }

  /** A body whose code is a string "200" is rejected: the check is strict. */
  lemma StrictCode(res: Response)
    requires res.ok && res.body.JObj? && "code" in res.body.fields
    requires res.body.fields["code"] == JStr("200")
    ensures TimesFromResponse(res).Err? && TimesFromResponse(res).error.ServiceError?
  {
  }
}
