/** The request-body validation middleware of the server
    (backend/src/middleware/validator.js). The Joi schemas are data (fields with a
    rule each); `Violations` lists what Joi reports with `abortEarly: false`, and
    `Validate` is the middleware's effect on the request. Joi's `.uri()` check and
    its string-to-number conversion are parameters. */
module RequestValidator {
  import opened Wrappers
  import opened JsStrings
  import Validators

  // ---------------------------------------------------------------------------
  // NAME_REGEX and hasLetterOrDigit of the server

  /** `[A-Za-z0-9çğıöşüÇĞİÖŞÜ]`, the class `hasLetterOrDigit` looks for. */
  predicate IsLetterOrDigit(c: char) {
    ('A' <= c <= 'Z') || ('a' <= c <= 'z') || ('0' <= c <= '9')
    || c == '\U{00E7}' || c == '\U{011F}' || c == '\U{0131}' || c == '\U{00F6}' || c == '\U{015F}' || c == '\U{00FC}'
    || c == '\U{00C7}' || c == '\U{011E}' || c == '\U{0130}' || c == '\U{00D6}' || c == '\U{015E}' || c == '\U{00DC}'
  }

  /** The class of the server's NAME_REGEX. */
  predicate IsNameChar(c: char) {
    IsLetterOrDigit(c) || c == ' ' || c == '_' || c == '.' || c == '-'
  }

  predicate MatchesNameRegex(s: string) {
    s != [] && forall k :: 0 <= k < |s| ==> IsNameChar(s[k])
  }

  /** `hasLetterOrDigit`: the trimmed value holds a letter or a digit of the class. */
  predicate HasLetterOrDigit(value: string) {
    var t := Trim(value);
    exists k :: 0 <= k < |t| && IsLetterOrDigit(t[k])
  }

  /** The server and the client accept the same name characters. */
  lemma NameClassesAgree(c: char)
    ensures IsNameChar(c) <==> Validators.IsNameChar(c)
    ensures IsLetterOrDigit(c) <==> Validators.IsNameLetterOrDigit(c)
  {
  }

  // ---------------------------------------------------------------------------
  // Schemas

  /** A request-body value: a string, a (finite) number, or anything else. */
  datatype Value = Str(s: string) | Num(x: real) | Other

  type Body = map<string, Value>

  /** The Joi error codes the schemas can report. */
  datatype Code =
    | AnyRequired | AnyOnly
    | StringBase | StringEmpty | StringMin | StringMax | StringPatternBase | StringNoContent | StringUri
    | NumberBase | NumberMin

  /** The rule chains the schemas use:
      a name (`string().min(2).max(50).pattern(NAME_REGEX).custom(hasLetterOrDigit).required()`),
      a URL (`string().uri().required()`), a title (`string().max(200).optional().allow('')`),
      a playback state (`string().valid('playing', 'paused').required()`),
      a position (`number().min(0).required()`) and a socket id (`string().required()`). */
  datatype Rule = NameRule(fieldName: string) | UriRule | TitleRule | StateRule | TimeRule | SocketIdRule

  datatype Field = Field(key: string, rule: Rule)

  datatype Violation = Violation(key: string, code: Code)

  /** What the schemas cannot see on their own: Joi's `uri()` test and the
      conversion of numeric strings that `number()` performs. */
  datatype Env = Env(isUri: string -> bool, toNumber: string -> Option<real>)

  const CreateRoomSchema: seq<Field> := [Field("name", NameRule("Room name")), Field("createdBy", NameRule("Your name"))]
  const AddVideoSchema: seq<Field> := [Field("videoUrl", UriRule), Field("videoTitle", TitleRule), Field("addedBy", NameRule("Username"))]
  const UpdateVideoStateSchema: seq<Field> := [Field("state", StateRule), Field("currentTime", TimeRule)]
  const DeleteRoomSchema: seq<Field> := [Field("socketId", SocketIdRule)]

  /** The number a value stands for under `number()`, if any. */
  function AsNumber(v: Value, env: Env): Option<real> {
    match v
    case Num(x) => Some(x)
    case Str(s) => env.toNumber(s)
    case Other => None
  }

  /** The codes Joi reports for one field, in rule order. An empty string fails a
      `string()` that does not allow it with `string.empty` alone; the later rules
      of a chain all run and all report. */
  function FieldCodes(rule: Rule, v: Option<Value>, env: Env): seq<Code> {
    match rule
    case NameRule(_) =>
      if v.None? then [AnyRequired]
      else if !v.value.Str? then [StringBase]
      else if v.value.s == "" then [StringEmpty]
      else
        var s := v.value.s;
        (if Utf16Length(s) < 2 then [StringMin] else [])
        + (if Utf16Length(s) > 50 then [StringMax] else [])
        + (if !MatchesNameRegex(s) then [StringPatternBase] else [])
        + (if !HasLetterOrDigit(s) then [StringNoContent] else [])
    case UriRule =>
      if v.None? then [AnyRequired]
      else if !v.value.Str? then [StringBase]
      else if v.value.s == "" then [StringEmpty]
      else if !env.isUri(v.value.s) then [StringUri]
      else []
    case TitleRule =>
      if v.None? || v.value == Str("") then []
      else if !v.value.Str? then [StringBase]
      else if Utf16Length(v.value.s) > 200 then [StringMax]
      else []
    case StateRule =>
      if v.None? then [AnyRequired]
      else if v.value == Str("playing") || v.value == Str("paused") then []
      else [AnyOnly]
    case TimeRule =>
      if v.None? then [AnyRequired]
      else
        var n := AsNumber(v.value, env);
        if n.None? then [NumberBase]
        else if n.value < 0.0 then [NumberMin]
        else []
    case SocketIdRule =>
      if v.None? then [AnyRequired]
      else if !v.value.Str? then [StringBase]
      else if v.value.s == "" then [StringEmpty]
      else []
  }

  function Lookup(body: Body, key: string): Option<Value> {
    if key in body then Some(body[key]) else None
  }

  /** The codes each field's rule reports against `body`. */
  function BodyCodes(body: Body, env: Env): Field -> seq<Code> {
    (f: Field) => FieldCodes(f.rule, Lookup(body, f.key), env)
  }

  /** Each violation in `vs` is a code `codes` reports for a field of `schema`. */
  predicate Reported(schema: seq<Field>, codes: Field -> seq<Code>, vs: seq<Violation>) {
    forall k :: 0 <= k < |vs| ==>
      exists i :: 0 <= i < |schema| && vs[k].key == schema[i].key && vs[k].code in codes(schema[i])
  }

  /** Every code `codes` reports for a field of `schema` is in `vs`. */
  predicate AllReported(schema: seq<Field>, codes: Field -> seq<Code>, vs: seq<Violation>) {
    forall i, c :: 0 <= i < |schema| && c in codes(schema[i]) ==> Violation(schema[i].key, c) in vs
  }

  /** The violations of one field. */
  function FieldViolations(f: Field, codes: Field -> seq<Code>): (vs: seq<Violation>)
    ensures |vs| == |codes(f)|
    ensures forall k :: 0 <= k < |vs| ==> vs[k] == Violation(f.key, codes(f)[k])
  {
    seq(|codes(f)|, k requires 0 <= k < |codes(f)| => Violation(f.key, codes(f)[k]))
  }

  /** The violations of every field of `schema`, field by field, when `codes` says
      what each field reports. */
  function Collect(schema: seq<Field>, codes: Field -> seq<Code>): (vs: seq<Violation>)
    ensures Reported(schema, codes, vs) && AllReported(schema, codes, vs)
  {
    if schema == [] then []
    else
      var rest := Collect(schema[1..], codes);
      CollectStep(schema, codes, rest);
      FieldViolations(schema[0], codes) + rest
  }

  lemma CollectStep(schema: seq<Field>, codes: Field -> seq<Code>, rest: seq<Violation>)
    requires schema != []
    requires Reported(schema[1..], codes, rest) && AllReported(schema[1..], codes, rest)
    ensures Reported(schema, codes, FieldViolations(schema[0], codes) + rest)
    ensures AllReported(schema, codes, FieldViolations(schema[0], codes) + rest)
  {
    var f := schema[0];
    var head := FieldViolations(f, codes);
    var vs := head + rest;
    forall k | 0 <= k < |vs|
      ensures exists i :: 0 <= i < |schema| && vs[k].key == schema[i].key && vs[k].code in codes(schema[i])
    {
      if k < |head| {
        assert vs[k] == Violation(f.key, codes(f)[k]);
      } else {
        var i :| 0 <= i < |schema[1..]| && rest[k - |head|].key == schema[1..][i].key
                 && rest[k - |head|].code in codes(schema[1..][i]);
        assert schema[1..][i] == schema[i + 1];
      }
    }
    forall i, c | 0 <= i < |schema| && c in codes(schema[i]) ensures Violation(schema[i].key, c) in vs {
      if i == 0 {
        var k :| 0 <= k < |codes(f)| && codes(f)[k] == c;
        assert vs[k] == Violation(f.key, c);
      } else {
        assert schema[1..][i - 1] == schema[i];
        var k :| 0 <= k < |rest| && rest[k] == Violation(schema[i].key, c);
        assert vs[|head| + k] == rest[k];
      }
    }
  }

  /** Every violation of every field, in schema order (`abortEarly: false`): each
      reported violation is a code its field's rule reports, and every code every
      field's rule reports is there. */
  function Violations(schema: seq<Field>, body: Body, env: Env): (vs: seq<Violation>)
    ensures forall k :: 0 <= k < |vs| ==>
              exists i :: 0 <= i < |schema| && vs[k].key == schema[i].key
                          && vs[k].code in FieldCodes(schema[i].rule, Lookup(body, schema[i].key), env)
    ensures forall i, c :: 0 <= i < |schema| && c in FieldCodes(schema[i].rule, Lookup(body, schema[i].key), env) ==>
              Violation(schema[i].key, c) in vs
  {
    var codes := BodyCodes(body, env);
    var vs := Collect(schema, codes);
    assert Reported(schema, codes, vs) && AllReported(schema, codes, vs);
    assert forall i :: 0 <= i < |schema| ==> codes(schema[i]) == FieldCodes(schema[i].rule, Lookup(body, schema[i].key), env);
    vs
  }

  // ---------------------------------------------------------------------------
  // The rules as plain predicates

  /** A name the server accepts. */
  predicate IsValidName(s: string) {
    2 <= Utf16Length(s) <= 50 && MatchesNameRegex(s) && HasLetterOrDigit(s)
  }

  /** What each rule accepts, stated without the error codes. */
  predicate FieldValid(rule: Rule, v: Option<Value>, env: Env) {
    match rule
    case NameRule(_) => v.Some? && v.value.Str? && IsValidName(v.value.s)
    case UriRule => v.Some? && v.value.Str? && v.value.s != "" && env.isUri(v.value.s)
    case TitleRule => v.None? || (v.value.Str? && Utf16Length(v.value.s) <= 200)
    case StateRule => v == Some(Str("playing")) || v == Some(Str("paused"))
    case TimeRule => v.Some? && AsNumber(v.value, env).Some? && AsNumber(v.value, env).value >= 0.0
    case SocketIdRule => v.Some? && v.value.Str? && v.value.s != ""
  }

  predicate SchemaValid(schema: seq<Field>, body: Body, env: Env) {
    forall i :: 0 <= i < |schema| ==> FieldValid(schema[i].rule, Lookup(body, schema[i].key), env)
  }

  lemma FieldCodesEmptyIffValid(rule: Rule, v: Option<Value>, env: Env)
    ensures FieldCodes(rule, v, env) == [] <==> FieldValid(rule, v, env)
  {
  }

  /** Joi reports nothing exactly when every field satisfies its rule. */
  lemma {:induction false} NoViolationsIffValid(schema: seq<Field>, body: Body, env: Env)
    ensures Violations(schema, body, env) == [] <==> SchemaValid(schema, body, env)
  {
    if schema != [] {
      NoViolationsIffValid(schema[1..], body, env);
      FieldCodesEmptyIffValid(schema[0].rule, Lookup(body, schema[0].key), env);
      SchemaValidSplit(schema, body, env);
    }
  }

  /** A schema is satisfied exactly when its first field and the rest are. */
  lemma SchemaValidSplit(schema: seq<Field>, body: Body, env: Env)
    requires schema != []
    ensures SchemaValid(schema, body, env)
            <==> FieldValid(schema[0].rule, Lookup(body, schema[0].key), env) && SchemaValid(schema[1..], body, env)
  {
    forall i | 0 <= i < |schema[1..]| ensures schema[1..][i] == schema[i + 1] {
    }
  }

  /** The server's name rule is the client's name rule. */
  lemma ServerNameRuleIsClientRule(s: string)
    ensures IsValidName(s) <==> Validators.IsValidName(s)
  {
    var t := Trim(s);
    assert HasLetterOrDigit(s) <==> Validators.ContainsLetterOrDigit(t) by {
      if HasLetterOrDigit(s) {
        var k :| 0 <= k < |t| && IsLetterOrDigit(t[k]);
        NameClassesAgree(t[k]);
      }
      if Validators.ContainsLetterOrDigit(t) {
        var k :| 0 <= k < |t| && Validators.IsNameLetterOrDigit(t[k]);
        NameClassesAgree(t[k]);
      }
    }
  }

  lemma EmptyNameReportsOnlyEmpty(name: string, env: Env)
    ensures FieldCodes(NameRule(name), Some(Str("")), env) == [StringEmpty]
  {
  }

  // ---------------------------------------------------------------------------
  // Messages and the sanitised body

  /** The message of one violation: the `.messages({...})` text where the schema
      gives one, Joi's default text otherwise. */
  function Message(rule: Rule, key: string, code: Code): string {
    var quoted := "\"" + key + "\"";
    match rule
    case NameRule(name) =>
      (match code
       case AnyRequired => name + " is required"
       case StringEmpty => name + " is required"
       case StringMin => name + " must be at least 2 characters"
       case StringMax => name + " must be less than 50 characters"
       case StringPatternBase => name + " can only contain letters, numbers, spaces, -, _ and ."
       case StringNoContent => name + " must contain at least one letter or number"
       case _ => quoted + " must be a string")
    case UriRule =>
      (match code
       case StringUri => "Video URL must be a valid URL"
       case StringBase => quoted + " must be a string"
       case _ => "Video URL is required")
    case TitleRule =>
      (match code
       case StringMax => quoted + " length must be less than or equal to 200 characters long"
       case _ => quoted + " must be a string")
    case StateRule =>
      (match code
       case AnyRequired => "State is required"
       case _ => "State must be either \"playing\" or \"paused\"")
    case TimeRule =>
      (match code
       case AnyRequired => "Current time is required"
       case NumberMin => "Current time must be a positive number"
       case _ => "Current time must be a number")
    case SocketIdRule =>
      (match code
       case StringBase => quoted + " must be a string"
       case _ => "Socket ID is required")
  }

  /** No two fields share a key, as the keys of a `Joi.object({...})` literal cannot. */
  predicate DistinctKeys(schema: seq<Field>) {
    forall i, j :: 0 <= i < j < |schema| ==> schema[i].key != schema[j].key
  }

  /** The four schemas of the server have distinct keys. */
  lemma SchemasHaveDistinctKeys()
    ensures DistinctKeys(CreateRoomSchema) && DistinctKeys(AddVideoSchema)
    ensures DistinctKeys(UpdateVideoStateSchema) && DistinctKeys(DeleteRoomSchema)
  {
  }

  /** The message of every violation `Collect` lists, in the same order. */
  function CollectMessages(schema: seq<Field>, codes: Field -> seq<Code>): seq<string> {
    if schema == [] then []
    else
      var f := schema[0];
      var own := codes(f);
      seq(|own|, k requires 0 <= k < |own| => Message(f.rule, f.key, own[k])) + CollectMessages(schema[1..], codes)
  }

  /** One message per collected violation, each the message of its field's rule. */
  lemma {:induction false} CollectMessagesMatch(schema: seq<Field>, codes: Field -> seq<Code>)
    ensures |CollectMessages(schema, codes)| == |Collect(schema, codes)|
    ensures DistinctKeys(schema) ==>
              forall k :: 0 <= k < |Collect(schema, codes)| ==>
                InSchema(schema, Collect(schema, codes)[k].key)
                && CollectMessages(schema, codes)[k]
                   == Message(RuleOf(schema, Collect(schema, codes)[k].key), Collect(schema, codes)[k].key, Collect(schema, codes)[k].code)
  {
    if schema != [] {
      var f := schema[0];
      var own := codes(f);
      var vs := Collect(schema, codes);
      var ds := CollectMessages(schema, codes);
      var tail := Collect(schema[1..], codes);
      CollectMessagesMatch(schema[1..], codes);
      assert vs == FieldViolations(f, codes) + tail;
      if DistinctKeys(schema) {
        assert DistinctKeys(schema[1..]) by {
          forall i, j | 0 <= i < j < |schema[1..]| ensures schema[1..][i].key != schema[1..][j].key {
            assert schema[1..][i] == schema[i + 1] && schema[1..][j] == schema[j + 1];
          }
        }
        forall k | 0 <= k < |vs|
          ensures InSchema(schema, vs[k].key) && ds[k] == Message(RuleOf(schema, vs[k].key), vs[k].key, vs[k].code)
        {
          if k < |own| {
            assert vs[k] == Violation(f.key, own[k]);
          } else {
            var t := tail[k - |own|];
            assert vs[k] == t;
            var i :| 0 <= i < |schema[1..]| && schema[1..][i].key == t.key;
            assert schema[i + 1].key == t.key;
            assert f.key != t.key;
          }
        }
      }
    }
  }

  /** `error.details.map(d => d.message)`: one message per violation, in the same
      order, each the message of the violated field's rule for its code. */
  function Details(schema: seq<Field>, body: Body, env: Env): (ds: seq<string>)
    ensures |ds| == |Violations(schema, body, env)|
    ensures DistinctKeys(schema) ==>
              forall k :: 0 <= k < |ds| ==>
                InSchema(schema, Violations(schema, body, env)[k].key)
                && ds[k] == Message(RuleOf(schema, Violations(schema, body, env)[k].key),
                                    Violations(schema, body, env)[k].key, Violations(schema, body, env)[k].code)
  {
    CollectMessagesMatch(schema, BodyCodes(body, env));
    CollectMessages(schema, BodyCodes(body, env))
  }

  predicate InSchema(schema: seq<Field>, key: string) {
    exists i :: 0 <= i < |schema| && schema[i].key == key
  }

  /** The value Joi hands back for a field: numbers converted, everything else as given. */
  function RuleOf(schema: seq<Field>, key: string): Rule
    requires InSchema(schema, key)
  {
    if schema[0].key == key then schema[0].rule
    else
      assert InSchema(schema[1..], key) by {
        var i :| 0 <= i < |schema| && schema[i].key == key;
        assert schema[1..][i - 1].key == key;
      }
      RuleOf(schema[1..], key)
  }

  function Converted(rule: Rule, v: Value, env: Env): Value {
    if rule == TimeRule && AsNumber(v, env).Some? then Num(AsNumber(v, env).value) else v
  }

  /** The validated value under `stripUnknown: true`: the schema's keys that the
      body holds, with their converted values; every other key is dropped. */
  function Sanitized(schema: seq<Field>, body: Body, env: Env): (out: Body)
    ensures forall k :: k in out <==> k in body && InSchema(schema, k)
  {
    map k | k in body && InSchema(schema, k) :: Converted(RuleOf(schema, k), body[k], env)
  }

  /** A string field comes through validation unchanged. */
  lemma SanitizedKeepsStrings(schema: seq<Field>, body: Body, env: Env, k: string)
    requires k in body && body[k].Str? && InSchema(schema, k) && RuleOf(schema, k) != TimeRule
    ensures k in Sanitized(schema, body, env) && Sanitized(schema, body, env)[k] == body[k]
  {
  }

  /** The error the middleware passes to `next`. */
  datatype ValidationError = ValidationError(message: string, statusCode: int, isValidation: bool, details: seq<string>)

  /** The part of an Express request the middleware touches. */
  class Request {
    var body: Body

    constructor (body: Body)
      ensures this.body == body
    {
      this.body := body;
    }

    /** `validate(schema)(req, res, next)`: on any violation, `next` receives a 400
        validation error listing every violation's message and the body stays as it
        was; otherwise the body is replaced by the sanitised value and `next` is
        called without an error. */
    method Validate(schema: seq<Field>, env: Env) returns (err: Option<ValidationError>)
      modifies this
      ensures err.Some? <==> Violations(schema, old(body), env) != []
      ensures err.Some? ==> body == old(body)
                            && err.value == ValidationError("Validation failed", 400, true, Details(schema, old(body), env))
      ensures err.None? ==> body == Sanitized(schema, old(body), env)
    {
      var vs := Violations(schema, body, env);
      if vs != [] {
        err := Some(ValidationError("Validation failed", 400, true, Details(schema, body, env)));
        return;
      }
      body := Sanitized(schema, body, env);
      err := None;
    }
  }
}
