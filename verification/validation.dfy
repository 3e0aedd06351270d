/** The request validators: the create-body, update-body and list-query
    schemas as pure parsers that return the parsed value or the list of
    issues, and `validateRequest`, which picks the query (GET) or the body
    (every other method) and turns issues into a 400 reply. */
module Validation {
  import opened Common
  import opened Text
  import opened TaskModel
  import opened Issues
  import Database

  /** One field of an incoming object: absent, a string, or any other value
      (number, boolean, null, array, object), named by its type. */
  datatype Raw = Undefined | Str(text: string) | NonString(typeName: string)

  /** An incoming body or query: an object, or a value of another type. */
  datatype Payload = Object(fields: map<string, Raw>) | NonObject(typeName: string)

  function Field(fields: map<string, Raw>, key: string): Raw
  {
    if key in fields then fields[key] else Undefined
  }

  /** The outcome of a schema: the parsed value, or the issues found. */
  datatype Checked<T> = Pass(value: T) | Fail(issues: seq<Issue>)

  function IssuesOf<T>(c: Checked<T>): seq<Issue>
  {
    if c.Pass? then [] else c.issues
  }

  /** The message for a value of the wrong type. */
  function TypeMessage(expected: string, v: Raw): string
  {
    match v
    case Undefined => "Required"
    case Str(_) => "Expected " + expected + ", received string"
    case NonString(name) => "Expected " + expected + ", received " + name
  }

  // ----- string fields -----

  /** `z.string().min(min, tooShort).max(max, tooLong)`. */
  datatype StringRule = StringRule(min: nat, max: nat, tooShort: string, tooLong: string)

  predicate Within(v: Raw, rule: StringRule)
  {
    v.Str? && rule.min <= |v.text| <= rule.max
  }

  /** A required string field: passes exactly when it is a string whose
      length is within the rule's bounds, and then yields that string;
      otherwise every issue it reports is about this field: the rule's
      too-short or too-long message, or the type message for a value that is
      not a string. */
  function CheckString(key: string, v: Raw, rule: StringRule): (r: Checked<string>)
    ensures r.Pass? <==> Within(v, rule)
    ensures r.Pass? ==> r.value == v.text
    ensures r.Fail? ==> |r.issues| > 0 && forall i :: i in r.issues ==> i.path == [key]
    ensures v.Str? && |v.text| < rule.min <= rule.max ==> r == Fail([Issue([key], rule.tooShort)])
    ensures v.Str? && rule.min <= rule.max < |v.text| ==> r == Fail([Issue([key], rule.tooLong)])
    ensures !v.Str? ==> r == Fail([Issue([key], TypeMessage("string", v))])
  {
    match v
    case Str(text) =>
      var issues :=
        (if |text| < rule.min then [Issue([key], rule.tooShort)] else []) +
        (if |text| > rule.max then [Issue([key], rule.tooLong)] else []);
      if issues == [] then Pass(text) else Fail(issues)
    case _ => Fail([Issue([key], TypeMessage("string", v))])
  }

  /** The same field with `.optional()`: absence passes as `None`. */
  function CheckOptionalString(key: string, v: Raw, rule: StringRule): (r: Checked<Option<string>>)
    ensures r.Pass? <==> v.Undefined? || Within(v, rule)
    ensures r.Pass? ==> r.value == if v.Undefined? then None else Some(v.text)
    ensures r.Fail? ==> |r.issues| > 0 && forall i :: i in r.issues ==> i.path == [key]
  {
    if v.Undefined? then Pass(None)
    else
      match CheckString(key, v, rule)
      case Pass(text) => Pass(Some(text))
      case Fail(issues) => Fail(issues)
  }

  // ----- the status enum -----

  const EnumList := "'PENDING' | 'COMPLETED' | 'IN_PROGRESS'"

  predicate IsStatusName(v: Raw)
  {
    v.Str? && v.text in StatusNames
  }

  /** `z.nativeEnum(TaskStatus).optional()`: absence passes as `None`, one of
      the three names passes as its status, anything else is an issue about
      this field. */
  function CheckOptionalStatus(key: string, v: Raw): (r: Checked<Option<Status>>)
    ensures r.Pass? <==> v.Undefined? || IsStatusName(v)
    ensures r.Pass? && v.Undefined? ==> r.value == None
    ensures r.Pass? && v.Str? ==> r.value.Some? && StatusName(r.value.value) == v.text
    ensures r.Fail? ==> |r.issues| > 0 && forall i :: i in r.issues ==> i.path == [key]
  {
    match v
    case Undefined => Pass(None)
    case Str(text) =>
      (match ParseStatus(text)
       case Some(st) => Pass(Some(st))
       case None => Fail([Issue([key], "Invalid enum value. Expected " + EnumList + ", received '" + text + "'")]))
    case NonString(_) => Fail([Issue([key], TypeMessage(EnumList, v))])
  }

  // ----- decimal digit strings -----

  predicate IsDigit(c: char) { '0' <= c <= '9' }

  /** The pattern `/^\d+$/`: one or more ASCII decimal digits and nothing else. */
  predicate AllDigits(s: string)
  {
    |s| > 0 && forall i :: 0 <= i < |s| ==> IsDigit(s[i])
  }

  /** `Number(s)` on a string of decimal digits. */
  function DigitsValue(s: string): nat
    requires forall i :: 0 <= i < |s| ==> IsDigit(s[i])
  {
    if s == [] then 0
    else
      assert IsDigit(s[|s| - 1]);
      10 * DigitsValue(s[..|s| - 1]) + (s[|s| - 1] as int - '0' as int)
  }

  /** The canonical decimal spelling of `n` (no leading zeros). */
  function DecimalString(n: nat): string
  {
    var d := ('0' as int + n % 10) as char;
    if n < 10 then [d] else DecimalString(n / 10) + [d]
  }

  /** Every number's decimal spelling passes the digit pattern and reads back
      as the number. */
  lemma {:induction false} DecimalRoundTrip(n: nat)
    ensures AllDigits(DecimalString(n))
    ensures DigitsValue(DecimalString(n)) == n
  {
    var s := DecimalString(n);
    if n >= 10 {
      DecimalRoundTrip(n / 10);
      assert s[..|s| - 1] == DecimalString(n / 10);
    }
  }

  /** `z.string().regex(/^\d+$/).transform(Number).optional()`: absence
      passes as `None`, a digit string passes as its value, anything else is
      an issue about this field. */
  function CheckOptionalCount(key: string, v: Raw): (r: Checked<Option<int>>)
    ensures r.Pass? <==> v.Undefined? || (v.Str? && AllDigits(v.text))
    ensures r.Pass? && v.Undefined? ==> r.value == None
    ensures r.Pass? && v.Str? ==> r.value == Some(DigitsValue(v.text))
    ensures r.Fail? ==> |r.issues| > 0 && forall i :: i in r.issues ==> i.path == [key]
  {
    match v
    case Undefined => Pass(None)
    case Str(text) =>
      if AllDigits(text) then Pass(Some(DigitsValue(text)))
      else Fail([Issue([key], "Invalid")])
    case NonString(_) => Fail([Issue([key], TypeMessage("string", v))])
  }

  /** `z.string().optional()`: any string or absence. */
  function CheckOptionalText(key: string, v: Raw): (r: Checked<Option<string>>)
    ensures r.Pass? <==> !v.NonString?
    ensures r.Pass? ==> r.value == if v.Undefined? then None else Some(v.text)
    ensures r.Fail? ==> |r.issues| > 0 && forall i :: i in r.issues ==> i.path == [key]
  {
    match v
    case Undefined => Pass(None)
    case Str(text) => Pass(Some(text))
    case NonString(_) => Fail([Issue([key], TypeMessage("string", v))])
  }

  // ----- the three schemas -----

  /** The parsed create body (`CreateTaskRequest`). */
  datatype CreateTaskBody = CreateTaskBody(title: string, description: string, status: Option<Status>)

  /** The parsed update body (`UpdateTaskRequest`). */
  datatype UpdateTaskBody = UpdateTaskBody(title: Option<string>, description: Option<string>, status: Option<Status>)

  const TitleRule := StringRule(1, 100, "Title is required", "Title must be less than 100 characters")
  const DescriptionRule := StringRule(1, 500, "Description is required", "Description must be less than 500 characters")
  const UpdateTitleRule := StringRule(1, 100, "String must contain at least 1 character(s)", "String must contain at most 100 character(s)")
  const UpdateDescriptionRule := StringRule(1, 500, "String must contain at least 1 character(s)", "String must contain at most 500 character(s)")

  /** The issue for a payload that is not an object at all. */
  function NotAnObject(p: Payload): seq<Issue>
    requires p.NonObject?
  {
    [Issue([], "Expected object, received " + p.typeName)]
  }

  /** What `createTaskSchema` accepts: an object whose title is a string of
      1 to 100 characters, whose description is a string of 1 to 500, and
      whose status is absent or one of the three names. */
  predicate CreateAcceptable(p: Payload)
  {
    && p.Object?
    && Within(Field(p.fields, "title"), TitleRule)
    && Within(Field(p.fields, "description"), DescriptionRule)
    && (Field(p.fields, "status").Undefined? || IsStatusName(Field(p.fields, "status")))
  }

  /** `createTaskSchema.parse`: passes exactly on acceptable payloads, keeping
      the title and description as given and the status as named; a failure
      always reports at least one issue. */
  function ValidateCreate(p: Payload): (r: Checked<CreateTaskBody>)
    ensures r.Pass? <==> CreateAcceptable(p)
    ensures r.Pass? ==>
              && r.value.title == Field(p.fields, "title").text
              && r.value.description == Field(p.fields, "description").text
              && (Field(p.fields, "status").Undefined? <==> r.value.status.None?)
              && (r.value.status.Some? ==> StatusName(r.value.status.value) == Field(p.fields, "status").text)
    ensures r.Fail? ==> |r.issues| > 0
  {
    match p
    case NonObject(_) => Fail(NotAnObject(p))
    case Object(fields) =>
      var title := CheckString("title", Field(fields, "title"), TitleRule);
      var description := CheckString("description", Field(fields, "description"), DescriptionRule);
      var status := CheckOptionalStatus("status", Field(fields, "status"));
      if title.Pass? && description.Pass? && status.Pass? then
        Pass(CreateTaskBody(title.value, description.value, status.value))
      else
        Fail(IssuesOf(title) + IssuesOf(description) + IssuesOf(status))
  }

  /** What `updateTaskSchema` accepts: an object each of whose three fields is
      either absent or meets the same bounds and enum as on create. */
  predicate UpdateAcceptable(p: Payload)
  {
    && p.Object?
    && (Field(p.fields, "title").Undefined? || Within(Field(p.fields, "title"), UpdateTitleRule))
    && (Field(p.fields, "description").Undefined? || Within(Field(p.fields, "description"), UpdateDescriptionRule))
    && (Field(p.fields, "status").Undefined? || IsStatusName(Field(p.fields, "status")))
  }

  /** `updateTaskSchema.parse`: passes exactly on acceptable payloads (the
      empty object among them); a supplied field is kept as given, an absent
      one stays absent. */
  function ValidateUpdate(p: Payload): (r: Checked<UpdateTaskBody>)
    ensures r.Pass? <==> UpdateAcceptable(p)
    ensures r.Pass? ==>
              && (r.value.title.Some? <==> !Field(p.fields, "title").Undefined?)
              && (r.value.title.Some? ==> r.value.title.value == Field(p.fields, "title").text)
              && (r.value.description.Some? <==> !Field(p.fields, "description").Undefined?)
              && (r.value.description.Some? ==> r.value.description.value == Field(p.fields, "description").text)
              && (r.value.status.Some? <==> !Field(p.fields, "status").Undefined?)
              && (r.value.status.Some? ==> StatusName(r.value.status.value) == Field(p.fields, "status").text)
    ensures r.Fail? ==> |r.issues| > 0
  {
    match p
    case NonObject(_) => Fail(NotAnObject(p))
    case Object(fields) =>
      var title := CheckOptionalString("title", Field(fields, "title"), UpdateTitleRule);
      var description := CheckOptionalString("description", Field(fields, "description"), UpdateDescriptionRule);
      var status := CheckOptionalStatus("status", Field(fields, "status"));
      if title.Pass? && description.Pass? && status.Pass? then
        Pass(UpdateTaskBody(title.value, description.value, status.value))
      else
        Fail(IssuesOf(title) + IssuesOf(description) + IssuesOf(status))
  }

  /** What `taskQuerySchema` accepts: `page` and `limit` absent or non-empty
      digit strings, `status` absent or one of the three names, `search`
      absent or any string. */
  predicate QueryAcceptable(p: Payload)
  {
    && p.Object?
    && (Field(p.fields, "page").Undefined? || (Field(p.fields, "page").Str? && AllDigits(Field(p.fields, "page").text)))
    && (Field(p.fields, "limit").Undefined? || (Field(p.fields, "limit").Str? && AllDigits(Field(p.fields, "limit").text)))
    && (Field(p.fields, "status").Undefined? || IsStatusName(Field(p.fields, "status")))
    && !Field(p.fields, "search").NonString?
  }

  /** `taskQuerySchema.parse`: passes exactly on acceptable queries; `page`
      and `limit` become the numbers their digits spell, so they are never
      negative. */
  function ValidateQuery(p: Payload): (r: Checked<Database.TaskQuery>)
    ensures r.Pass? <==> QueryAcceptable(p)
    ensures r.Pass? ==>
              && (r.value.page.Some? <==> !Field(p.fields, "page").Undefined?)
              && (r.value.page.Some? ==> r.value.page.value == DigitsValue(Field(p.fields, "page").text))
              && (r.value.limit.Some? <==> !Field(p.fields, "limit").Undefined?)
              && (r.value.limit.Some? ==> r.value.limit.value == DigitsValue(Field(p.fields, "limit").text))
              && (r.value.status.Some? <==> !Field(p.fields, "status").Undefined?)
              && (r.value.status.Some? ==> StatusName(r.value.status.value) == Field(p.fields, "status").text)
              && (r.value.search.Some? <==> !Field(p.fields, "search").Undefined?)
              && (r.value.search.Some? ==> r.value.search.value == Field(p.fields, "search").text)
    ensures r.Fail? ==> |r.issues| > 0
  {
    match p
    case NonObject(_) => Fail(NotAnObject(p))
    case Object(fields) =>
      var page := CheckOptionalCount("page", Field(fields, "page"));
      var limit := CheckOptionalCount("limit", Field(fields, "limit"));
      var status := CheckOptionalStatus("status", Field(fields, "status"));
      var search := CheckOptionalText("search", Field(fields, "search"));
      if page.Pass? && limit.Pass? && status.Pass? && search.Pass? then
        Pass(Database.TaskQuery(page.value, limit.value, status.value, search.value))
      else
        Fail(IssuesOf(page) + IssuesOf(limit) + IssuesOf(status) + IssuesOf(search))
  }

  // ----- validateRequest -----

  datatype Schema = CreateTaskSchema | UpdateTaskSchema | TaskQuerySchema

  /** A value one of the schemas produced. */
  datatype Validated =
    | CreateInput(create: CreateTaskBody)
    | UpdateInput(update: UpdateTaskBody)
    | QueryInput(query: Database.TaskQuery)

  function Parse(schema: Schema, p: Payload): Checked<Validated>
  {
    match schema
    case CreateTaskSchema =>
      (match ValidateCreate(p) case Pass(v) => Pass(CreateInput(v)) case Fail(e) => Fail(e))
    case UpdateTaskSchema =>
      (match ValidateUpdate(p) case Pass(v) => Pass(UpdateInput(v)) case Fail(e) => Fail(e))
    case TaskQuerySchema =>
      (match ValidateQuery(p) case Pass(v) => Pass(QueryInput(v)) case Fail(e) => Fail(e))
  }

  datatype Request = Request(verb: string, query: Payload, body: Payload)

  /** What the middleware does: hand the parsed value on to the next
      handler, or answer with a status code and a JSON envelope. */
  datatype Reply =
    | Next(value: Validated)
    | Respond(status: nat, success: bool, message: string, error: string)

  /** The part of a request the middleware checks: the query of a GET, the
      body of any other method. */
  function CheckedPart(req: Request): Payload
  {
    if req.verb == "GET" then req.query else req.body
  }

  /** `validateRequest(schema)`: the request proceeds, carrying the parsed
      value, exactly when the checked part parses; otherwise the reply is a
      400 whose error text lists every issue as `path: message`. */
  function ValidateRequest(schema: Schema, req: Request): (r: Reply)
    ensures r.Next? <==> Parse(schema, CheckedPart(req)).Pass?
    ensures r.Next? ==> Parse(schema, CheckedPart(req)) == Pass(r.value)
    ensures r.Respond? ==> r.status == 400 && !r.success && r.message == "Validation error"
    ensures r.Respond? ==> r.error == ErrorText(Parse(schema, CheckedPart(req)).issues)
  {
    match Parse(schema, CheckedPart(req))
    case Pass(v) => Next(v)
    case Fail(issues) => Respond(400, false, "Validation error", ErrorText(issues))
  }

  // ----- properties of the validators -----

  /** Some issue in the list is about field `key`. */
  predicate HasIssueAt(issues: seq<Issue>, key: string)
  {
    exists i :: i in issues && i.path == [key]
  }

  /** What a field's check promises about its issues: there is one when it
      fails, and every one sits at the field's path. */
  predicate ReportsAt<T>(c: Checked<T>, key: string)
  {
    c.Fail? ==> |c.issues| > 0 && forall i :: i in c.issues ==> i.path == [key]
  }

  lemma IssuesOfAt<T>(c: Checked<T>, key: string, k: string)
    requires ReportsAt(c, key)
    ensures HasIssueAt(IssuesOf(c), k) <==> c.Fail? && k == key
  {
    if c.Fail? {
      assert c.issues[0] in c.issues;
    }
    if HasIssueAt(IssuesOf(c), k) {
      var i :| i in IssuesOf(c) && i.path == [k];
      assert [k][0] == [key][0];
    }
  }

  lemma HasIssueAtConcat(a: seq<Issue>, b: seq<Issue>, k: string)
    ensures HasIssueAt(a + b, k) <==> HasIssueAt(a, k) || HasIssueAt(b, k)
  {
    if HasIssueAt(a + b, k) {
      var i :| i in a + b && i.path == [k];
      assert i in a || i in b;
    }
  }

  lemma SingletonsDiffer(x: string, y: string)
    requires x != y
    ensures [x] != [y]
  {
    assert [x][0] == x && [y][0] == y;
  }

  /** Three field checks, reported one after the other: the combined list
      has an issue at a field exactly when that field's check failed, and
      nowhere else. */
  lemma ThreeChecks<A, B, C>(a: Checked<A>, ka: string, b: Checked<B>, kb: string, c: Checked<C>, kc: string)
    requires ReportsAt(a, ka) && ReportsAt(b, kb) && ReportsAt(c, kc)
    requires ka != kb && ka != kc && kb != kc
    ensures var issues := IssuesOf(a) + IssuesOf(b) + IssuesOf(c);
      && (HasIssueAt(issues, ka) <==> a.Fail?)
      && (HasIssueAt(issues, kb) <==> b.Fail?)
      && (HasIssueAt(issues, kc) <==> c.Fail?)
      && forall i :: i in issues ==> i.path in [[ka], [kb], [kc]]
  {
    forall k | k in [ka, kb, kc]
      ensures HasIssueAt(IssuesOf(a) + IssuesOf(b) + IssuesOf(c), k)
              <==> (a.Fail? && k == ka) || (b.Fail? && k == kb) || (c.Fail? && k == kc)
    {
      IssuesOfAt(a, ka, k);
      IssuesOfAt(b, kb, k);
      IssuesOfAt(c, kc, k);
      HasIssueAtConcat(IssuesOf(a), IssuesOf(b), k);
      HasIssueAtConcat(IssuesOf(a) + IssuesOf(b), IssuesOf(c), k);
    }
    assert ka in [ka, kb, kc] && kb in [ka, kb, kc] && kc in [ka, kb, kc];
  }

  /** The same for the four query parameters. */
  lemma FourChecks<A, B, C, D>(a: Checked<A>, ka: string, b: Checked<B>, kb: string,
                                c: Checked<C>, kc: string, d: Checked<D>, kd: string)
    requires ReportsAt(a, ka) && ReportsAt(b, kb) && ReportsAt(c, kc) && ReportsAt(d, kd)
    requires ka != kb && ka != kc && ka != kd && kb != kc && kb != kd && kc != kd
    ensures var issues := IssuesOf(a) + IssuesOf(b) + IssuesOf(c) + IssuesOf(d);
      && (HasIssueAt(issues, ka) <==> a.Fail?)
      && (HasIssueAt(issues, kb) <==> b.Fail?)
      && (HasIssueAt(issues, kc) <==> c.Fail?)
      && (HasIssueAt(issues, kd) <==> d.Fail?)
      && forall i :: i in issues ==> i.path in [[ka], [kb], [kc], [kd]]
  {
    var abc := IssuesOf(a) + IssuesOf(b) + IssuesOf(c);
    ThreeChecks(a, ka, b, kb, c, kc);
    IssuesOfAt(d, kd, ka);
    IssuesOfAt(d, kd, kb);
    IssuesOfAt(d, kd, kc);
    IssuesOfAt(d, kd, kd);
    HasIssueAtConcat(abc, IssuesOf(d), ka);
    HasIssueAtConcat(abc, IssuesOf(d), kb);
    HasIssueAtConcat(abc, IssuesOf(d), kc);
    HasIssueAtConcat(abc, IssuesOf(d), kd);
    SingletonsDiffer(kd, ka);
    SingletonsDiffer(kd, kb);
    SingletonsDiffer(kd, kc);
    assert [kd] !in [[ka], [kb], [kc]];
  }

  /** A rejected create body reports every field that broke its rule, and
      no other field. */
  lemma CreateIssuesNameBadFields(p: Payload)
    requires p.Object? && ValidateCreate(p).Fail?
    ensures var issues := ValidateCreate(p).issues;
      && (HasIssueAt(issues, "title") <==> !Within(Field(p.fields, "title"), TitleRule))
      && (HasIssueAt(issues, "description") <==> !Within(Field(p.fields, "description"), DescriptionRule))
      && (HasIssueAt(issues, "status") <==>
            !(Field(p.fields, "status").Undefined? || IsStatusName(Field(p.fields, "status"))))
      && forall i :: i in issues ==> i.path in [["title"], ["description"], ["status"]]
  {
    var title := CheckString("title", Field(p.fields, "title"), TitleRule);
    var description := CheckString("description", Field(p.fields, "description"), DescriptionRule);
    var status := CheckOptionalStatus("status", Field(p.fields, "status"));
    assert ValidateCreate(p).issues == IssuesOf(title) + IssuesOf(description) + IssuesOf(status);
    ThreeChecks(title, "title", description, "description", status, "status");
  }

  /** A rejected update body reports every supplied field that broke its
      rule, and no other field. */
  lemma UpdateIssuesNameBadFields(p: Payload)
    requires p.Object? && ValidateUpdate(p).Fail?
    ensures var issues := ValidateUpdate(p).issues;
      && (HasIssueAt(issues, "title") <==>
            !(Field(p.fields, "title").Undefined? || Within(Field(p.fields, "title"), UpdateTitleRule)))
      && (HasIssueAt(issues, "description") <==>
            !(Field(p.fields, "description").Undefined? || Within(Field(p.fields, "description"), UpdateDescriptionRule)))
      && (HasIssueAt(issues, "status") <==>
            !(Field(p.fields, "status").Undefined? || IsStatusName(Field(p.fields, "status"))))
      && forall i :: i in issues ==> i.path in [["title"], ["description"], ["status"]]
  {
    var title := CheckOptionalString("title", Field(p.fields, "title"), UpdateTitleRule);
    var description := CheckOptionalString("description", Field(p.fields, "description"), UpdateDescriptionRule);
    var status := CheckOptionalStatus("status", Field(p.fields, "status"));
    assert ValidateUpdate(p).issues == IssuesOf(title) + IssuesOf(description) + IssuesOf(status);
    ThreeChecks(title, "title", description, "description", status, "status");
  }

  /** A rejected query reports every parameter that broke its rule, and no
      other parameter. */
  lemma QueryIssuesNameBadFields(p: Payload)
    requires p.Object? && ValidateQuery(p).Fail?
    ensures var issues := ValidateQuery(p).issues;
      && (HasIssueAt(issues, "page") <==>
            !(Field(p.fields, "page").Undefined? || (Field(p.fields, "page").Str? && AllDigits(Field(p.fields, "page").text))))
      && (HasIssueAt(issues, "limit") <==>
            !(Field(p.fields, "limit").Undefined? || (Field(p.fields, "limit").Str? && AllDigits(Field(p.fields, "limit").text))))
      && (HasIssueAt(issues, "status") <==>
            !(Field(p.fields, "status").Undefined? || IsStatusName(Field(p.fields, "status"))))
      && (HasIssueAt(issues, "search") <==> Field(p.fields, "search").NonString?)
      && forall i :: i in issues ==> i.path in [["page"], ["limit"], ["status"], ["search"]]
  {
    var page := CheckOptionalCount("page", Field(p.fields, "page"));
    var limit := CheckOptionalCount("limit", Field(p.fields, "limit"));
    var status := CheckOptionalStatus("status", Field(p.fields, "status"));
    var search := CheckOptionalText("search", Field(p.fields, "search"));
    assert ValidateQuery(p).issues == IssuesOf(page) + IssuesOf(limit) + IssuesOf(status) + IssuesOf(search);
    FourChecks(page, "page", limit, "limit", status, "status", search, "search");
  }

  /** A create body whose title or description is a string of the wrong
      length is rejected with that field's own message. */
  lemma CreateFieldMessages(p: Payload)
    requires p.Object?
    ensures var v := Field(p.fields, "title");
      v.Str? && |v.text| == 0 ==>
        ValidateCreate(p).Fail? && Issue(["title"], "Title is required") in ValidateCreate(p).issues
    ensures var v := Field(p.fields, "title");
      v.Str? && |v.text| > 100 ==>
        ValidateCreate(p).Fail? && Issue(["title"], "Title must be less than 100 characters") in ValidateCreate(p).issues
    ensures var v := Field(p.fields, "description");
      v.Str? && |v.text| == 0 ==>
        ValidateCreate(p).Fail? && Issue(["description"], "Description is required") in ValidateCreate(p).issues
    ensures var v := Field(p.fields, "description");
      v.Str? && |v.text| > 500 ==>
        ValidateCreate(p).Fail? && Issue(["description"], "Description must be less than 500 characters") in ValidateCreate(p).issues
  {
    var title := CheckString("title", Field(p.fields, "title"), TitleRule);
    var description := CheckString("description", Field(p.fields, "description"), DescriptionRule);
    var status := CheckOptionalStatus("status", Field(p.fields, "status"));
    if title.Fail? || description.Fail? {
      assert ValidateCreate(p).issues == IssuesOf(title) + IssuesOf(description) + IssuesOf(status);
    }
  }

  /** Every issue of a rejected request can be read in the reply's error
      text, rendered as `path: message`. */
  lemma RejectionShowsEveryIssue(schema: Schema, req: Request, k: nat)
    requires Parse(schema, CheckedPart(req)).Fail?
    requires k < |Parse(schema, CheckedPart(req)).issues|
    ensures ValidateRequest(schema, req).Respond?
    ensures Includes(ValidateRequest(schema, req).error, RenderIssue(Parse(schema, CheckedPart(req)).issues[k]))
  {
    var issues := Parse(schema, CheckedPart(req)).issues;
    ErrorTextIssueAt(issues, k);
    assert OccursAt(ErrorText(issues), RenderIssue(issues[k]), PartOffset(RenderAll(issues), ", ", k));
  }

  /** A GET request is judged by its query alone and any other request by its
      body alone: changing the part that is not checked never changes the
      reply. */
  lemma ValidateRequestDispatch(schema: Schema, verb: string, q1: Payload, q2: Payload, b1: Payload, b2: Payload)
    ensures verb == "GET" ==>
              ValidateRequest(schema, Request(verb, q1, b1)) == ValidateRequest(schema, Request(verb, q1, b2))
    ensures verb != "GET" ==>
              ValidateRequest(schema, Request(verb, q1, b1)) == ValidateRequest(schema, Request(verb, q2, b1))
  {
  }

  /** A create body with an empty title, a valid description and no status
      fails on the title alone, with its custom message. */
  lemma EmptyTitleIssues(description: string)
    requires 1 <= |description| <= 500
    ensures ValidateCreate(Object(map["title" := Str(""), "description" := Str(description)]))
            == Fail([Issue(["title"], "Title is required")])
  {
    var fields := map["title" := Str(""), "description" := Str(description)];
    assert Field(fields, "title") == Str("");
    assert Field(fields, "description") == Str(description);
    assert Field(fields, "status") == Undefined;
  }

  lemma EmptyTitleRejected(verb: string, query: Payload, description: string)
    requires verb != "GET" && 1 <= |description| <= 500
    ensures ValidateRequest(
              CreateTaskSchema,
              Request(verb, query, Object(map["title" := Str(""), "description" := Str(description)])))
            == Respond(400, false, "Validation error", ErrorText([Issue(["title"], "Title is required")]))
  {
    var body := Object(map["title" := Str(""), "description" := Str(description)]);
    EmptyTitleIssues(description);
    assert Parse(CreateTaskSchema, body) == Fail([Issue(["title"], "Title is required")]);
  }

  /** Whatever its query, a non-GET create request with an empty title and
      a valid description is answered 400 with the one-issue text
      `title: Title is required`. */
  lemma EmptyTitleReply(verb: string, query: Payload, description: string)
    requires verb != "GET" && 1 <= |description| <= 500
    ensures ValidateRequest(
              CreateTaskSchema,
              Request(verb, query, Object(map["title" := Str(""), "description" := Str(description)])))
            == Respond(400, false, "Validation error", "title: Title is required")
  {
    SingleIssueText("title", "Title is required");
    assert ErrorText([Issue(["title"], "Title is required")]) == "title: Title is required";
    EmptyTitleRejected(verb, query, description);
  }
}
