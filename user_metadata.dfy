/** The user metadata route, POST /api/user: a user's profile (gender, age, occupation and two
    questionnaire scores) sent either as an uploaded JSON file or as inline fields, checked and
    stored as uploads/<user_id>/<file name>. */
module UserMetadata {
  import opened JsStrings
  import opened JsValues
  import opened JsObjects
  import opened FileStore
  import opened Multer

  // ---------------------------------------------------------------------------------------------
  // The middleware in front of the handler

  const JsonOnly := "Only JSON files are allowed"

  /** The `fileFilter`: a part is accepted when its declared type is "application/json" or the
      lower-cased extension of its name is ".json"; anything else is rejected with JsonOnly. */
  function JsonFilter(p: Part): (out: FilterOutcome)
    ensures !out.Throw?
    ensures out.Reject? ==> out.message == JsonOnly
  {
    if p.mimetype == "application/json" || ToLower(ExtName(p.originalname)) == ".json" then Accept
    else Reject(JsonOnly)
  }

  const MaxFileSize: nat := 10 * 1024 * 1024

  /** The middleware configuration: one file, in the field "metadata", of at most 10 MiB. */
  function UserConfig(): Config
  {
    Config(["metadata"], 1, MaxFileSize, JsonFilter)
  }

  lemma JsonExtension(base: string, x: string)
    requires base != [] && '/' !in base
    requires x != [] && '.' !in x && '/' !in x
    ensures ToLower(ExtName(base + "." + x)) == ".json" <==> ToLower(x) == "json"
  {
    assert ".json" == "." + "json";
    DotPrefixInjective(ToLower(x), "json");
    ToLowerDotPrefix(x);
    ExtNameOfSuffix(base, x);
  }

  lemma DotPrefixInjective(a: string, b: string)
    ensures "." + a == "." + b <==> a == b
  {
    if "." + a == "." + b {
      assert a == ("." + a)[1..] && b == ("." + b)[1..];
    }
  }

  /** For a name "<base>.<x>", the filter accepts the part exactly when its declared type is
      "application/json" or x is "json" in any case: "Profile.JSON" passes whatever its type. */
  lemma JsonFilterByName(base: string, x: string, mimetype: string, buffer: seq<byte>)
    requires base != [] && '/' !in base
    requires x != [] && '.' !in x && '/' !in x
    ensures JsonFilter(Part("metadata", base + "." + x, mimetype, buffer)).Accept? <==>
      mimetype == "application/json" || ToLower(x) == "json"
  {
    JsonExtension(base, x);
  }

  /** A request the middleware passes on has at most one file; it is in the field "metadata",
      passed the filter and is at most 10 MiB. */
  lemma UserIntakeBounds(parts: seq<Part>)
    requires Collect(UserConfig(), parts).Accepted?
    ensures |parts| <= 1
    ensures forall i :: 0 <= i < |parts| ==>
      parts[i].fieldname == "metadata" && JsonFilter(parts[i]).Accept? && Size(parts[i]) <= MaxFileSize
  {
    CollectAcceptsIff(UserConfig(), parts);
  }

  /** A single non-JSON file is refused with the filter's error, which the catch block would
      answer with 400. */
  lemma NonJsonFileRefused(p: Part)
    requires p.fieldname == "metadata" && !JsonFilter(p).Accept?
    ensures Collect(UserConfig(), [p]) == Rejected(ErrorInfo(None, Some(JsonOnly)))
    ensures ClassifyError(ErrorInfo(None, Some(JsonOnly))) ==
      Response(400, Error("Invalid file type", Some(JsonOnly)))
  {
    assert [p][..0] == [];
    IncludesPrefix(JsonOnly, "");
    assert JsonOnly + "" == JsonOnly;
  }

  // ---------------------------------------------------------------------------------------------
  // Requests and the metadata they carry

  /** The uploaded file and what `JSON.parse` made of its text (None: a syntax error). */
  datatype MetadataFile = MetadataFile(part: Part, parsed: Option<JsValue>)

  /** A request as the handler receives it: the `x-user-id` header, `req.file` and `req.body`. */
  datatype Request = Request(userId: Option<string>, file: Option<MetadataFile>, body: seq<Prop>)

  /** `v || null`. */
  function OrNull(v: JsValue): JsValue
  {
    if Truthy(v) then v else Null
  }

  /** `v ? parseInt(v) : null`: None when `parseInt` throws. */
  function IntOrNull(v: JsValue): (r: Option<JsValue>)
    ensures r.None? <==> ConversionThrows(v)
    ensures r == Some(Null) <==> !Truthy(v)
    ensures r.Some? && r.value != Null ==> IntegerValued(r.value)
  {
    if Truthy(v) then ParseInt(v) else Some(Null)
  }

  /** The inline fields, in the order the record lists them. */
  const InlineFields: seq<string> := ["gender", "age", "occupation", "gad7_result", "phq9_result"]

  lemma InlineFieldsDistinct()
    ensures forall i, j :: 0 <= i < j < |InlineFields| ==> InlineFields[i] != InlineFields[j]
  {
    var f := InlineFields;
    assert |f[0]| == 6 && |f[1]| == 3 && |f[2]| == 10 && |f[3]| == 11 && |f[4]| == 11;
    assert f[3][0] == 'g' && f[4][0] == 'p';
  }

  /** `parseInt` throws on one of the three numeric inline fields. */
  predicate InlineThrows(body: seq<Prop>)
  {
    ConversionThrows(Get(body, "age")) || ConversionThrows(Get(body, "gad7_result"))
    || ConversionThrows(Get(body, "phq9_result"))
  }

  /** The record built from the inline fields, or None when building it throws. */
  function InlineRecord(body: seq<Prop>): (m: Option<JsValue>)
    ensures m.None? <==> InlineThrows(body)
    ensures m.Some? ==> m.value.Obj? && DistinctKeys(m.value.props) && Keys(m.value.props) == InlineFields
  {
    match (IntOrNull(Get(body, "age")), IntOrNull(Get(body, "gad7_result")), IntOrNull(Get(body, "phq9_result")))
    case (Some(age), Some(gad7), Some(phq9)) =>
      Some(Obj(InlineProps(OrNull(Get(body, "gender")), age, OrNull(Get(body, "occupation")), gad7, phq9)))
    case _ => None
  }

  /** The object literal `{ gender, age, occupation, gad7_result, phq9_result }`. */
  function InlineProps(gender: JsValue, age: JsValue, occupation: JsValue, gad7: JsValue, phq9: JsValue)
    : (ps: seq<Prop>)
    ensures DistinctKeys(ps) && Keys(ps) == InlineFields
  {
    var ps := [Prop("gender", gender), Prop("age", age), Prop("occupation", occupation),
               Prop("gad7_result", gad7), Prop("phq9_result", phq9)];
    assert Keys(ps) == InlineFields by {
      assert forall i :: 0 <= i < 5 ==> Keys(ps)[i] == InlineFields[i];
    }
    InlineFieldsDistinct();
    ps
  }

  /** What the handler has once it has read the request: the document to validate, a file that is
      not JSON, or the error that building the inline record threw. */
  datatype Reading = Document(data: JsValue) | NotJson | Thrown(message: string)

  /** The metadata the handler works on: the parsed file when one was sent, the inline record
      otherwise. */
  function Metadata(req: Request): Reading
  {
    if req.file.Some? then
      if req.file.value.parsed.Some? then Document(req.file.value.parsed.value) else NotJson
    else if InlineRecord(req.body).Some? then Document(InlineRecord(req.body).value)
    else Thrown(ConversionFailure)
  }

  /** `data[key]` for a value that is not null or undefined: a property of an object, and
      `undefined` for arrays, strings, numbers and booleans, which have no such own property. */
  function Property(data: JsValue, key: string): JsValue
  {
    if data.Obj? then Get(data.props, key) else Undefined
  }

  /** When a file is sent, the inline fields do not matter, and reading the request does not
      throw. */
  lemma FileTakesPrecedence(req: Request, body: seq<Prop>)
    requires req.file.Some?
    ensures Metadata(req) == Metadata(req.(body := body))
    ensures Metadata(req).Document? <==> req.file.value.parsed.Some?
    ensures Metadata(req).Document? ==> Metadata(req).data == req.file.value.parsed.value
    ensures !Metadata(req).Thrown?
  {
  }

  /** Without a file, reading the request throws exactly when `parseInt` throws on a numeric
      field, and otherwise gives the inline record. */
  lemma InlineReading(req: Request)
    requires req.file.None?
    ensures Metadata(req).Thrown? <==> InlineThrows(req.body)
    ensures !Metadata(req).NotJson?
    ensures Metadata(req).Document? ==> Some(Metadata(req).data) == InlineRecord(req.body)
  {
  }

  // ---------------------------------------------------------------------------------------------
  // validateUserData

  /** The three checked fields, in the order they are checked. */
  datatype Measure = Age | Gad7 | Phq9

  function Key(m: Measure): string
  {
    match m
    case Age => "age"
    case Gad7 => "gad7_result"
    case Phq9 => "phq9_result"
  }

  /** The largest accepted value; the smallest is 0. */
  function Max(m: Measure): nat
  {
    match m
    case Age => 150
    case Gad7 => 21
    case Phq9 => 27
  }

  function Message(m: Measure): string
  {
    match m
    case Age => "Invalid age (must be between 0-150)"
    case Gad7 => "Invalid GAD-7 result (must be between 0-21)"
    case Phq9 => "Invalid PHQ-9 result (must be between 0-27)"
  }

  function Rank(m: Measure): nat
  {
    match m
    case Age => 0
    case Gad7 => 1
    case Phq9 => 2
  }

  /** The check of one field, `data.f && (isNaN(data.f) || data.f < 0 || data.f > max)`: None
      when it throws. */
  function FieldCheck(data: JsValue, m: Measure): Option<bool>
  {
    RangeCheck(Property(data, Key(m)), Max(m))
  }

  /** The check of field `m` holds. */
  predicate Flagged(data: JsValue, m: Measure)
  {
    OutOfRange(Property(data, Key(m)), Max(m))
  }

  /** The check of field `m` throws. */
  predicate FieldThrows(data: JsValue, m: Measure)
  {
    ConversionThrows(Property(data, Key(m)))
  }

  /** A check throws exactly when converting its field throws, and otherwise tells whether the
      field is flagged. */
  lemma FieldCheckIff(data: JsValue, m: Measure)
    ensures FieldCheck(data, m).None? <==> FieldThrows(data, m)
    ensures FieldCheck(data, m) == Some(true) <==> Flagged(data, m)
  {
    OutOfRangeIff(Property(data, Key(m)), Max(m));
  }

  /** The items whose flag is set, out of three taken in order. */
  function Listed<T>(a: bool, b: bool, c: bool, x: T, y: T, z: T): seq<T>
  {
    (if a then [x] else []) + (if b then [y] else []) + (if c then [z] else [])
  }

  /** Pushing the flagged items one after another onto an empty list lists them. */
  lemma PushesListed<T>(a: bool, b: bool, c: bool, x: T, y: T, z: T)
    ensures [] + (if a then [x] else []) + (if b then [y] else []) + (if c then [z] else [])
      == Listed(a, b, c, x, y, z)
  {
    assert [] + (if a then [x] else []) == (if a then [x] else []);
  }

  /** Of three different items, each is listed exactly when its flag is set. */
  lemma ListedMembership<T>(a: bool, b: bool, c: bool, x: T, y: T, z: T)
    requires x != y && x != z && y != z
    ensures x in Listed(a, b, c, x, y, z) <==> a
    ensures y in Listed(a, b, c, x, y, z) <==> b
    ensures z in Listed(a, b, c, x, y, z) <==> c
  {
  }

  /** Of three different items, none is listed twice and they keep their order: an earlier
      entry is never the last item, a later one never the first. */
  lemma ListedOrdered<T>(a: bool, b: bool, c: bool, x: T, y: T, z: T)
    requires x != y && x != z && y != z
    ensures var l := Listed(a, b, c, x, y, z);
      forall i, j :: 0 <= i < j < |l| ==> l[i] != l[j] && l[i] != z && l[j] != x
  {
  }

  lemma ListedEmpty<T>(a: bool, b: bool, c: bool, x: T, y: T, z: T)
    ensures Listed(a, b, c, x, y, z) == [] <==> !a && !b && !c
  {
  }

  /** The three messages are different, so a message names its field. */
  lemma MessagesDistinct()
    ensures Message(Age) != Message(Gad7) && Message(Age) != Message(Phq9)
    ensures Message(Gad7) != Message(Phq9)
  {
    assert |Message(Age)| == 35 && |Message(Gad7)| == 43 && |Message(Phq9)| == 43;
    assert Message(Gad7)[41] == '1' && Message(Phq9)[41] == '7';
  }

  /** The messages `validateUserData` returns when it does not throw: those of the flagged
      fields, in the order age, GAD-7, PHQ-9. */
  function Violations(data: JsValue): seq<string>
  {
    Listed(Flagged(data, Age), Flagged(data, Gad7), Flagged(data, Phq9),
           Message(Age), Message(Gad7), Message(Phq9))
  }

  /** A field's message is in the list exactly when that field is flagged: every violation is
      reported, not only the first. */
  lemma ViolationReported(data: JsValue, m: Measure)
    ensures Message(m) in Violations(data) <==> Flagged(data, m)
  {
    MessagesDistinct();
    ListedMembership(Flagged(data, Age), Flagged(data, Gad7), Flagged(data, Phq9),
                     Message(Age), Message(Gad7), Message(Phq9));
  }

  /** The message of the 400 answer, `validationErrors.join(', ')`, includes the message of
      every flagged field. */
  lemma ViolationInMessage(data: JsValue, m: Measure)
    requires Flagged(data, m)
    ensures Includes(Join(Violations(data), ", "), Message(m))
  {
    ViolationReported(data, m);
    JoinIncludes(Violations(data), ", ");
    var i :| 0 <= i < |Violations(data)| && Violations(data)[i] == Message(m);
  }

  /** The messages of three flags keep the order of the checks: a later entry belongs to a
      field checked later. */
  lemma MessagesOrdered(a: bool, b: bool, c: bool)
    ensures var es := Listed(a, b, c, Message(Age), Message(Gad7), Message(Phq9));
      forall i, j, m1, m2 :: (0 <= i < j < |es| && es[i] == Message(m1) && es[j] == Message(m2))
        ==> Rank(m1) < Rank(m2)
  {
    var es := Listed(a, b, c, Message(Age), Message(Gad7), Message(Phq9));
    MessagesDistinct();
    ListedOrdered(a, b, c, Message(Age), Message(Gad7), Message(Phq9));
    forall i, j, m1, m2 | 0 <= i < j < |es| && es[i] == Message(m1) && es[j] == Message(m2)
      ensures Rank(m1) < Rank(m2)
    {
      assert m1 != m2 && m1 != Phq9 && m2 != Age;
    }
  }

  /** The messages keep the order of the checks, so none occurs twice. */
  lemma ViolationsOrdered(data: JsValue)
    ensures var es := Violations(data);
      forall i, j, m1, m2 :: (0 <= i < j < |es| && es[i] == Message(m1) && es[j] == Message(m2))
        ==> Rank(m1) < Rank(m2)
  {
    MessagesOrdered(Flagged(data, Age), Flagged(data, Gad7), Flagged(data, Phq9));
  }

  /** The list is empty exactly when no field is flagged. */
  lemma NoViolations(data: JsValue)
    ensures Violations(data) == [] <==> forall m :: !Flagged(data, m)
  {
    ListedEmpty(Flagged(data, Age), Flagged(data, Gad7), Flagged(data, Phq9),
                Message(Age), Message(Gad7), Message(Phq9));
    if !Flagged(data, Age) && !Flagged(data, Gad7) && !Flagged(data, Phq9) {
      forall m ensures !Flagged(data, m) {
        match m
        case Age =>
        case Gad7 =>
        case Phq9 =>
      }
    }
  }

  /** `data.f` can be read: `data` is not null or undefined. */
  predicate Readable(data: JsValue)
  {
    !(data.Null? || data.Undefined?)
  }

  /** The message of the TypeError thrown by `data.age` when `data` is null or undefined. */
  function ReadFailure(data: JsValue): string
  {
    "Cannot read properties of " + (if data.Null? then "null" else "undefined") + " (reading 'age')"
  }

  /** `validateUserData(data)` throws: reading `data.age` fails, or one of the checks does. */
  predicate ValidationThrows(data: JsValue)
  {
    !Readable(data) || FieldThrows(data, Age) || FieldThrows(data, Gad7) || FieldThrows(data, Phq9)
  }

  /** A call that returns a value or throws an error with a message. */
  datatype Completion<T> = Returned(value: T) | Threw(message: string)

  /** One check of `validateUserData`: the messages so far, with this field's message pushed
      when the field is flagged, or None when the check throws. */
  method CheckField(data: JsValue, m: Measure, errors: seq<string>) returns (r: Option<seq<string>>)
    ensures r.None? <==> FieldThrows(data, m)
    ensures r.Some? ==> r.value == errors + (if Flagged(data, m) then [Message(m)] else [])
  {
    FieldCheckIff(data, m);
    var x := FieldCheck(data, m);
    if x.None? {
      return None;
    }
    if x.value {
      return Some(errors + [Message(m)]);
    }
    return Some(errors);
  }

  /** `validateUserData(data)`: the messages pushed, one check after another, or the error it
      throws. Every error is thrown before anything is returned, so the pushes already made are
      lost with it. */
  method ValidateUserData(data: JsValue) returns (r: Completion<seq<string>>)
    ensures r.Threw? <==> ValidationThrows(data)
    ensures r.Threw? ==> r.message == if Readable(data) then ConversionFailure else ReadFailure(data)
    ensures r.Returned? ==> r.value == Violations(data)
  {
    if data.Null? || data.Undefined? {
      return Threw(ReadFailure(data));
    }
    var errors: seq<string> := [];
    var next := CheckField(data, Age, errors);
    if next.None? {
      return Threw(ConversionFailure);
    }
    errors := next.value;
    next := CheckField(data, Gad7, errors);
    if next.None? {
      return Threw(ConversionFailure);
    }
    errors := next.value;
    next := CheckField(data, Phq9, errors);
    if next.None? {
      return Threw(ConversionFailure);
    }
    errors := next.value;
    PushesListed(Flagged(data, Age), Flagged(data, Gad7), Flagged(data, Phq9),
                 Message(Age), Message(Gad7), Message(Phq9));
    return Returned(errors);
  }

  /** The bounds are inclusive: an integer is flagged exactly when it is below 0 or above max. */
  lemma BoundsInclusive(m: Measure, n: int)
    ensures OutOfRange(Num(Finite(n as real)), Max(m)) <==> n < 0 || n > Max(m)
  {
  }

  /** A falsy value (absent, null, false, 0, NaN, "") passes without being converted; converting
      an object with an own "toString", or an array holding one, throws; any other truthy value
      that does not read as a number is flagged. */
  lemma FlaggedIff(v: JsValue, max: int)
    ensures !Truthy(v) ==> RangeCheck(v, max) == Some(false)
    ensures ConversionThrows(v) ==> RangeCheck(v, max).None?
    ensures Truthy(v) && !ConversionThrows(v) && PrimitiveNumber(v).NaN? ==> OutOfRange(v, max)
  {
    OutOfRangeIff(v, max);
  }

  /** An object with an own "toString" cannot be read as a number or a string. */
  lemma OwnToStringThrows(ps: seq<Prop>, max: int)
    requires "toString" in Keys(ps)
    ensures ConversionThrows(Obj(ps))
    ensures ParseInt(Obj(ps)).None? && RangeCheck(Obj(ps), max).None?
    ensures ConversionThrows(Arr([Num(Finite(1.0)), Obj(ps)]))
  {
    var i :| 0 <= i < |Keys(ps)| && Keys(ps)[i] == "toString";
    assert ps[i].key == "toString";
    assert Arr([Num(Finite(1.0)), Obj(ps)]).items[1] == Obj(ps);
  }

  /** A checked field of the inline record is `v ? parseInt(v) : null` of the body's field. */
  lemma InlineField(body: seq<Prop>, m: Measure)
    ensures InlineRecord(body).Some? ==>
      IntOrNull(Get(body, Key(m))) == Some(Property(InlineRecord(body).value, Key(m)))
  {
    if InlineRecord(body).Some? {
      var ps := InlineRecord(body).value.props;
      match m
      case Age => GetAt(ps, 1);
      case Gad7 => GetAt(ps, 3);
      case Phq9 => GetAt(ps, 4);
    }
  }

  /** The inline record holds only null or numbers, so validating it never throws. */
  lemma InlineRecordConverts(body: seq<Prop>)
    requires InlineRecord(body).Some?
    ensures !ValidationThrows(InlineRecord(body).value)
  {
    var data := InlineRecord(body).value;
    forall m ensures !FieldThrows(data, m) {
      InlineField(body, m);
      IntOrNullConverts(Get(body, Key(m)));
    }
  }

  /** What `x ? parseInt(x) : null` gives is null or a number, so converting it never throws. */
  lemma IntOrNullConverts(v: JsValue)
    requires IntOrNull(v).Some?
    ensures !ConversionThrows(IntOrNull(v).value)
  {
  }

  /** The inline gender and occupation are `v || null`: the body's value when it is truthy, and
      null otherwise; they are never converted. */
  lemma InlineTextFields(body: seq<Prop>)
    ensures InlineRecord(body).Some? ==>
      Property(InlineRecord(body).value, "gender")
        == (if Truthy(Get(body, "gender")) then Get(body, "gender") else Null)
    ensures InlineRecord(body).Some? ==>
      Property(InlineRecord(body).value, "occupation")
        == (if Truthy(Get(body, "occupation")) then Get(body, "occupation") else Null)
  {
    if InlineRecord(body).Some? {
      GetAt(InlineRecord(body).value.props, 0);
      GetAt(InlineRecord(body).value.props, 2);
    }
  }

  /** An inline field that is a non-empty digit string is stored as the integer it spells. */
  lemma InlineDigits(body: seq<Prop>, m: Measure, d: string)
    requires Get(body, Key(m)) == Str(d) && d != [] && AllDigits(d, 10)
    ensures InlineRecord(body).Some? ==>
      Property(InlineRecord(body).value, Key(m)) == Num(Finite(DigitsValue(d, 10) as real))
  {
    InlineField(body, m);
    ParseIntOfDigits(d);
  }

  /** A number that is finite or NaN fails the check exactly when it is finite and outside
      [0, max]: NaN and 0 are falsy. */
  lemma NumberOutOfRange(n: Numeric, max: nat)
    requires n.Finite? || n.NaN?
    ensures OutOfRange(Num(n), max) <==> n.Finite? && (n.r < 0.0 || n.r > max as real)
  {
  }

  /** For the inline source, a field is flagged exactly when its `parseInt` reading is an integer
      outside [0, max]: a value that does not parse becomes NaN, which is falsy and passes. */
  lemma InlineFlaggedIff(body: seq<Prop>, m: Measure)
    ensures InlineRecord(body).Some? ==>
      (Flagged(InlineRecord(body).value, m) <==>
        var v := Get(body, Key(m));
        Truthy(v) && ParseIntValue(v).n.Finite? &&
        var z := ParseIntValue(v).n.r.Floor;
        ParseIntValue(v) == Num(Finite(z as real)) && (z < 0 || z > Max(m)))
  {
    var v := Get(body, Key(m));
    InlineField(body, m);
    if Truthy(v) && InlineRecord(body).Some? {
      NumberOutOfRange(ParseIntValue(v).n, Max(m));
    }
  }

  /** An inline field whose text starts with neither white space, a sign nor a digit ("abc")
      is stored as NaN and is not reported. */
  lemma InlineNonNumericPasses(body: seq<Prop>, m: Measure, s: string)
    requires Get(body, Key(m)) == Str(s)
    requires s != [] && !IsJsSpace(s[0]) && s[0] != '-' && s[0] != '+' && !IsDigit(s[0], 10)
    ensures InlineRecord(body).Some? ==> !Flagged(InlineRecord(body).value, m)
  {
    InlineFlaggedIff(body, m);
    ParseIntNonDigit(s);
  }

  // ---------------------------------------------------------------------------------------------
  // The stored record

  /** The decimal writing of n, as JavaScript names array indices. */
  function DecimalString(n: nat): (s: string)
    ensures s != []
    ensures n >= 10 ==> |s| >= 2
    decreases n
  {
    if n < 10 then [DigitChar(n)] else DecimalString(n / 10) + [DigitChar(n % 10)]
  }

  function DigitChar(d: nat): char
    requires d < 10
  {
    ('0' as int + d) as char
  }

  lemma {:induction false} DecimalStringInjective(a: nat, b: nat)
    requires DecimalString(a) == DecimalString(b)
    ensures a == b
    decreases a
  {
    var s := DecimalString(a);
    if a >= 10 && b >= 10 {
      assert DigitChar(a % 10) == s[|s| - 1] == DigitChar(b % 10);
      assert DecimalString(a / 10) == s[..|s| - 1] == DecimalString(b / 10);
      DecimalStringInjective(a / 10, b / 10);
    }
  }

  /** The own enumerable properties that `...v` copies: an object's properties, an array's or a
      string's indexed elements, and nothing for other values. */
  function OwnProps(v: JsValue): (ps: seq<Prop>)
    ensures v.Obj? ==> ps == v.props
    ensures v.Arr? ==> |ps| == |v.items| && forall i :: 0 <= i < |ps| ==> ps[i] == Prop(DecimalString(i), v.items[i])
    ensures v.Str? ==> |ps| == |v.s| && forall i :: 0 <= i < |ps| ==> ps[i] == Prop(DecimalString(i), Str([v.s[i]]))
    ensures !(v.Obj? || v.Arr? || v.Str?) ==> ps == []
  {
    match v
    case Obj(props) => props
    case Arr(items) => seq(|items|, i requires 0 <= i < |items| => Prop(DecimalString(i), items[i]))
    case Str(s) => seq(|s|, i requires 0 <= i < |s| => Prop(DecimalString(i), Str([s[i]])))
    case _ => []
  }

  /** `JSON.parse` never builds an object with a repeated key, and spreading keeps them distinct. */
  predicate WellFormed(v: JsValue)
  {
    v.Obj? ==> DistinctKeys(v.props)
  }

  lemma OwnPropsDistinct(v: JsValue)
    requires WellFormed(v)
    ensures DistinctKeys(OwnProps(v))
  {
    var ps := OwnProps(v);
    if v.Arr? || v.Str? {
      forall i, j | 0 <= i < j < |ps| ensures ps[i].key != ps[j].key {
        if ps[i].key == ps[j].key {
          DecimalStringInjective(i, j);
        }
      }
    }
  }

  /** `finalMetadata`: `{ user_id, ...userMetadata, created_at }`. */
  function FinalRecord(uid: string, m: JsValue, now: string): seq<Prop>
  {
    Put(Spread([Prop("user_id", Str(uid))], OwnProps(m)), "created_at", Str(now))
  }

  /** The layering of the stored record: "user_id" is its first key; the metadata's fields
      follow and override the header's user id; "created_at" always holds the time of the
      request; every other key holds the metadata's value; and no key is repeated. */
  lemma {:induction false} RecordLayering(uid: string, m: JsValue, now: string)
    requires WellFormed(m)
    ensures var rec := FinalRecord(uid, m, now);
      && |rec| >= 2 && rec[0].key == "user_id"
      && DistinctKeys(rec)
      && Get(rec, "created_at") == Str(now)
      && Get(rec, "user_id") == (if "user_id" in Keys(OwnProps(m)) then Get(OwnProps(m), "user_id") else Str(uid))
      && (forall k :: k != "user_id" && k != "created_at" ==> Get(rec, k) == Get(OwnProps(m), k))
      && (forall k :: k in Keys(rec) <==> k == "user_id" || k == "created_at" || k in Keys(OwnProps(m)))
  {
    var base := [Prop("user_id", Str(uid))];
    var src := OwnProps(m);
    var sp := Spread(base, src);
    var rec := FinalRecord(uid, m, now);
    OwnPropsDistinct(m);
    SpreadKeepsDistinct(base, src);
    PutKeepsDistinct(sp, "created_at", Str(now));
    SpreadKeys(base, src);
    assert Keys(base) == ["user_id"];
    assert Keys(sp)[0] == "user_id";
    assert |Keys(rec)| >= 2 by {
      if "created_at" !in Keys(sp) {
        assert |Keys(rec)| == |Keys(sp)| + 1;
      } else {
        assert Keys(sp)[0] != "created_at";
      }
    }
    assert Keys(rec)[0] == "user_id";
    GetPut(sp, "created_at", Str(now), "created_at");
    GetSpread(base, src, "user_id");
    GetPut(sp, "created_at", Str(now), "user_id");
    forall k | k != "user_id" && k != "created_at" ensures Get(rec, k) == Get(src, k) {
      GetSpread(base, src, k);
      GetPut(sp, "created_at", Str(now), k);
    }
  }

  // ---------------------------------------------------------------------------------------------
  // Responses and the handler

  datatype UserData = UserData(user_id: string, metadata_path: Path, created_at: JsValue, source: string)

  datatype Body =
    | Saved(successMessage: string, data: UserData)
    | Error(error: string, message: Option<string>)

  datatype Response = Response(status: nat, body: Body)

  const MissingUserId := Response(400, Error("Missing required parameter", Some("X-User-ID header is required")))
  const InvalidJsonFile := Response(400, Error("Invalid JSON file", Some("The uploaded file is not a valid JSON file")))

  /** The catch block: a size-limit error is 413, checked first; then an error whose message
      contains JsonOnly is 400; anything else is 500 with the error's message. */
  function ClassifyError(e: ErrorInfo): (r: Response)
    ensures r.status == 413 <==> e.code == Some("LIMIT_FILE_SIZE")
    ensures r.status == 400 <==> e.code != Some("LIMIT_FILE_SIZE") && e.message.Some? && Includes(e.message.value, JsonOnly)
    ensures r.status == 400 ==> r.body == Error("Invalid file type", Some(JsonOnly))
    ensures r.status == 500 ==> r.body == Error("Failed to save user metadata", e.message)
    ensures r.status in {400, 413, 500}
  {
    if e.code == Some("LIMIT_FILE_SIZE") then
      Response(413, Error("File too large", Some("Maximum file size is 10MB")))
    else if e.message.Some? && e.message.value != "" && Includes(e.message.value, JsonOnly) then
      Response(400, Error("Invalid file type", Some(JsonOnly)))
    else
      Response(500, Error("Failed to save user metadata", e.message))
  }

  /** The 500 answer to an error the handler's own code throws. */
  function ServerError(message: string): Response
  {
    Response(500, Error("Failed to save user metadata", Some(message)))
  }

  /** An error whose message has no 'J', so does not mention JsonOnly, is answered with 500. */
  lemma ServerErrorFor(message: string)
    requires 'J' !in message
    ensures ClassifyError(ErrorInfo(None, Some(message))) == ServerError(message)
  {
    assert JsonOnly[5] == 'J';
    MissingCharNotIncluded(message, JsonOnly, 'J');
  }

  /** The TypeErrors the handler's own code can throw are answered with 500 and their message. */
  lemma ThrownErrorsAre500(data: JsValue)
    ensures ClassifyError(ErrorInfo(None, Some(ConversionFailure))) == ServerError(ConversionFailure)
    ensures ClassifyError(ErrorInfo(None, Some(ReadFailure(data)))) == ServerError(ReadFailure(data))
  {
    ServerErrorFor(ConversionFailure);
    ReadFailureHasNoJ(data);
    ServerErrorFor(ReadFailure(data));
  }

  lemma ReadFailureHasNoJ(data: JsValue)
    ensures 'J' !in ReadFailure(data)
  {
    var a, n, b := "Cannot read properties of ", if data.Null? then "null" else "undefined", " (reading 'age')";
    assert 'J' !in a && 'J' !in n && 'J' !in b;
    assert ReadFailure(data) == a + n + b;
  }

  /** The route handler. The user-id check comes first; a file that did not parse is refused
      before validation; an error thrown while building the inline record or validating the
      document is answered with 500; a document with violations is refused; only then is the user
      directory ensured and the one record written, at the uploaded file's own name when it has
      one and at "user_metadata.json" otherwise. */
  method HandleUserMetadata(fs: FileSystem, root: Path, req: Request, now: string) returns (resp: Response)
    modifies fs
    ensures !Given(req.userId) ==>
      resp == MissingUserId && fs.files == old(fs.files) && fs.dirs == old(fs.dirs)
    ensures Given(req.userId) && Metadata(req).NotJson? ==>
      resp == InvalidJsonFile && fs.files == old(fs.files) && fs.dirs == old(fs.dirs)
    ensures Given(req.userId) && Metadata(req).Thrown? ==>
      resp == ServerError(ConversionFailure) && fs.files == old(fs.files) && fs.dirs == old(fs.dirs)
    ensures Given(req.userId) && Metadata(req).Document? && ValidationThrows(Metadata(req).data) ==>
      var data := Metadata(req).data;
      resp == ServerError(if Readable(data) then ConversionFailure else ReadFailure(data))
      && fs.files == old(fs.files) && fs.dirs == old(fs.dirs)
    ensures (Given(req.userId) && Metadata(req).Document? && !ValidationThrows(Metadata(req).data) &&
      Violations(Metadata(req).data) != []) ==>
      resp == Response(400, Error("Invalid data", Some(Join(Violations(Metadata(req).data), ", "))))
      && fs.files == old(fs.files) && fs.dirs == old(fs.dirs)
    ensures (Given(req.userId) && Metadata(req).Document? && !ValidationThrows(Metadata(req).data) &&
      Violations(Metadata(req).data) == []) ==>
      var uid := req.userId.value;
      var named := req.file.Some? && req.file.value.part.originalname != "";
      var path := root + [uid, if named then req.file.value.part.originalname else "user_metadata.json"];
      && fs.dirs == old(fs.dirs) + Ancestry(root + [uid])
      && fs.files == old(fs.files)[path := JsonText(Obj(FinalRecord(uid, Metadata(req).data, now)))]
      && resp == Response(201, Saved("User metadata saved successfully",
           UserData(uid, path, Str(now), if req.file.Some? then "file" else "json_data")))
  {
    var userId := req.userId;
    if !(userId.Some? && userId.value != "") {
      return MissingUserId;
    }
    var userMetadata: JsValue := Obj([]);
    if req.file.Some? {
      if req.file.value.parsed.None? {
        return InvalidJsonFile;
      }
      userMetadata := req.file.value.parsed.value;
    } else {
      var inline := InlineRecord(req.body);
      if inline.None? {
        ThrownErrorsAre500(Null);
        return ClassifyError(ErrorInfo(None, Some(ConversionFailure)));
      }
      userMetadata := inline.value;
    }
    var validationErrors := ValidateUserData(userMetadata);
    if validationErrors.Threw? {
      ThrownErrorsAre500(userMetadata);
      return ClassifyError(ErrorInfo(None, Some(validationErrors.message)));
    }
    if |validationErrors.value| > 0 {
      return Response(400, Error("Invalid data", Some(Join(validationErrors.value, ", "))));
    }
    var userDir := root + [userId.value];
    fs.EnsureDir(userDir);
    var finalMetadata := FinalRecord(userId.value, userMetadata, now);
    var filename := "user_metadata.json";
    if req.file.Some? && req.file.value.part.originalname != "" {
      filename := req.file.value.part.originalname;
    }
    var metadataPath := userDir + [filename];
    JoinChild(root, userId.value, filename);
    fs.WriteFile(metadataPath, JsonText(Obj(finalMetadata)));
    var source := if req.file.Some? then "file" else "json_data";
    CreatedAtIsNow(userId.value, userMetadata, now);
    resp := Response(201, Saved("User metadata saved successfully",
      UserData(userId.value, metadataPath, Get(finalMetadata, "created_at"), source)));
  }

  /** The `created_at` of the response is the one stored, the time of the request, whatever the
      metadata held. */
  lemma CreatedAtIsNow(uid: string, m: JsValue, now: string)
    ensures Get(FinalRecord(uid, m, now), "created_at") == Str(now)
  {
    GetPutSame(Spread([Prop("user_id", Str(uid))], OwnProps(m)), "created_at", Str(now));
  }
}
