/** The request helpers: `postBearer`, which builds the options of a
    `fetch` call, and the dispatch of `readRequestBody` on the method and
    the content type of an incoming request. */
module Http {
  import opened Wrappers
  import opened JsStrings
  import opened OrderedMaps
  import Validators

  /** Header names and values, in the order the object literal lists them. */
  type Headers = seq<(JsString, JsString)>

  function Authorization(): JsString { Lit("Authorization") }
  function ContentType(): JsString { Lit("Content-Type") }
  function Accept(): JsString { Lit("Accept") }
  function ApplicationJson(): JsString { Lit("application/json") }
  function Get(): JsString { Lit("GET") }
  function Post(): JsString { Lit("POST") }

  /** The headers every bearer request starts from. */
  function DefaultHeaders(apikey: JsString): (hs: Headers)
    ensures Keys(hs) == [Authorization(), ContentType(), Accept()]
    ensures DistinctKeys(hs)
  {
    [(Authorization(), Lit("Bearer ") + apikey),
     (ContentType(), ApplicationJson()),
     (Accept(), ApplicationJson())]
  }

  /** The object `postBearer` returns. The `body` property exists only when
      there was data to send; `verb` is the `method` property. */
  datatype RequestInit = RequestInit(headers: Headers, verb: JsString, body: Option<JsString>)

  /** `postBearer({headers, apikey, method, data})`. An absent `headers`
      keeps the defaults; a present one is spread over them, so a caller's
      header replaces the default of the same name in place and new names
      follow the defaults. An absent or empty `method` falls back to GET
      without data and POST with it. `data` is `None` when it is falsy, and
      `stringify` stands for `JSON.stringify`. */
  function PostBearer<D>(apikey: JsString, headers: Option<Headers>, verb: Option<JsString>,
                         data: Option<D>, stringify: D -> JsString): (r: RequestInit)
    ensures headers.None? ==> r.headers == DefaultHeaders(apikey)
    ensures DistinctKeys(r.headers)
    ensures 3 <= |r.headers| && Keys(r.headers)[..3] == [Authorization(), ContentType(), Accept()]
    ensures verb.Some? && verb.value != [] ==> r.verb == verb.value
    ensures (verb.None? || verb.value == []) && data.None? ==> r.verb == Get()
    ensures (verb.None? || verb.value == []) && data.Some? ==> r.verb == Post()
    ensures r.body.Some? <==> data.Some?
    ensures data.Some? ==> r.body == Some(stringify(data.value))
  {
    var heds := DefaultHeaders(apikey);
    var heds := if headers.Some? then PutAll(heds, headers.value) else heds;
    var m := if verb.Some? && verb.value != [] then verb.value
             else if data.None? then Get() else Post();
    RequestInit(heds, m, if data.Some? then Some(stringify(data.value)) else None)
  }

  /** Each header of the request is the caller's last value for that name
      when the caller gave one, and the default otherwise. */
  lemma {:induction false} PostBearerHeader<D>(apikey: JsString, headers: Option<Headers>, verb: Option<JsString>,
                            data: Option<D>, stringify: D -> JsString, name: JsString)
    ensures var r := PostBearer(apikey, headers, verb, data, stringify);
      && (headers.Some? && LastValue(headers.value, name).Some? ==>
            Lookup(r.headers, name) == LastValue(headers.value, name))
      && (headers.None? || LastValue(headers.value, name).None? ==>
            Lookup(r.headers, name) == Lookup(DefaultHeaders(apikey), name))
  {
    if headers.Some? {
      PutAllLookup(DefaultHeaders(apikey), headers.value, name);
    }
  }

  /** Without caller headers the token travels as `Bearer <apikey>` and
      both content headers ask for JSON. */
  lemma {:induction false} DefaultHeaderValues(apikey: JsString)
    ensures Lookup(DefaultHeaders(apikey), Authorization()) == Some(Lit("Bearer ") + apikey)
    ensures Lookup(DefaultHeaders(apikey), ContentType()) == Some(ApplicationJson())
    ensures Lookup(DefaultHeaders(apikey), Accept()) == Some(ApplicationJson())
  {
    var hs := DefaultHeaders(apikey);
    IndexOfKeyIs(hs, Authorization(), 0);
    IndexOfKeyIs(hs, ContentType(), 1);
    IndexOfKeyIs(hs, Accept(), 2);
  }

  /** When the caller names no method, the request carries a body exactly
      when its method is POST. */
  lemma {:induction false} ImplicitMethodMatchesBody<D>(apikey: JsString, headers: Option<Headers>,
                                     data: Option<D>, stringify: D -> JsString)
    ensures var r := PostBearer(apikey, headers, None, data, stringify);
      (r.body.Some? <==> r.verb == Post()) && (r.body.None? <==> r.verb == Get())
  {
    assert |Get()| != |Post()|;
  }

  /** What `readRequestBody` resolves to: the parsed JSON, `{text: fields}`
      for a form, `{text: request.text()}` (a promise the function does not
      await) for anything else, and `{text: ''}` for a GET or when a reader
      failed. */
  datatype RequestBody<J> =
    | Json(value: J)
    | Form(fields: Headers)
    | TextPromise
    | EmptyText

  /** `headers.get('content-type')` is `null` when the header is missing. */
  function ContentTypeValue(contentType: Option<JsString>): JsStrings.Nullable
  {
    if contentType.Some? then Str(contentType.value) else Null
  }

  ghost predicate IsJsonContent(contentType: Option<JsString>)
  {
    contentType.Some? && Contains(contentType.value, ApplicationJson())
  }

  ghost predicate IsFormContent(contentType: Option<JsString>)
  {
    contentType.Some? && Contains(contentType.value, Lit("form"))
  }

  /** `readRequestBody(request)`. The outcomes of `request.json()` and
      `request.formData()` are parameters; a failed one is caught and
      answered with `{text: ''}`. The form's entries are copied into a
      fresh object one by one, so a repeated name keeps its last value. */
  function ReadRequestBody<J>(verb: JsString, contentType: Option<JsString>,
                              json: Result<J, JsError>, form: Result<Headers, JsError>): (r: RequestBody<J>)
    ensures verb == Get() ==> r == EmptyText
    ensures r.Json? <==> verb != Get() && IsJsonContent(contentType) && json.Ok?
    ensures r.Json? ==> r.value == json.value
    ensures r.Form? <==> verb != Get() && !IsJsonContent(contentType) && IsFormContent(contentType) && form.Ok?
    ensures r.Form? ==> DistinctKeys(r.fields) && |r.fields| <= |form.value|
    ensures r.TextPromise? <==> verb != Get() && !IsJsonContent(contentType) && !IsFormContent(contentType)
  {
    if verb == Get() then EmptyText
    else
      var ct := ContentTypeValue(contentType);
      if Validators.Includes(ct, ApplicationJson()) == Ok(true) then
        if json.Ok? then Json(json.value) else EmptyText
      else if Validators.Includes(ct, Lit("form")) == Ok(true) then
        if form.Ok? then
          var fields := PutAll([], form.value);
          assert DistinctKeys<JsString, JsString>([]);
          Form(fields)
        else EmptyText
      else TextPromise
  }

  /** Every field of a parsed form holds the last value the form gave that
      name, and only names the form gave appear. */
  lemma {:induction false} ReadFormField<J>(verb: JsString, contentType: Option<JsString>,
                         json: Result<J, JsError>, form: Result<Headers, JsError>, name: JsString)
    requires ReadRequestBody(verb, contentType, json, form).Form?
    ensures Lookup(ReadRequestBody(verb, contentType, json, form).fields, name) == LastValue(form.value, name)
  {
    PutAllLookup([], form.value, name);
    assert Lookup<JsString, JsString>([], name) == None;
    if LastValue(form.value, name).None? {
      assert Lookup(PutAll([], form.value), name) == None;
    }
  }
}
