/** The upload middleware's checks, as a validator over the file parts of one request in the order
    they arrive. For each part it checks, first failure winning: the file-count limit, that the
    field is one of the declared single-file fields and has not been seen, the route's file
    filter, and the per-file size limit. */
module Multer {
  import opened JsValues
  import opened FileStore

  /** One file part of a multipart request, buffered in memory. */
  datatype Part = Part(fieldname: string, originalname: string, mimetype: string, buffer: seq<byte>)

  /** `file.size` of a memory-stored part. */
  function Size(p: Part): nat
  {
    |p.buffer|
  }

  /** What a route's `fileFilter` does with a part: accept it, reject it with `new Error(message)`,
      or throw while deciding. */
  datatype FilterOutcome = Accept | Reject(message: string) | Throw(message: string)

  /** The two properties of a JavaScript error that the routes' catch blocks look at:
      `error.code` and `error.message` (None for `undefined`). */
  datatype ErrorInfo = ErrorInfo(code: Option<string>, message: Option<string>)

  datatype Intake = Accepted(parts: seq<Part>) | Rejected(error: ErrorInfo)

  const TooManyFiles := ErrorInfo(Some("LIMIT_FILE_COUNT"), Some("Too many files"))
  const UnexpectedField := ErrorInfo(Some("LIMIT_UNEXPECTED_FILE"), Some("Unexpected field"))
  const FileTooLarge := ErrorInfo(Some("LIMIT_FILE_SIZE"), Some("File too large"))

  /** The configuration a route gives the middleware: its single-file fields, the `files` and
      `fileSize` limits and its `fileFilter`. */
  datatype Config = Config(fields: seq<string>, maxFiles: nat, maxSize: nat, filter: Part -> FilterOutcome)

  /** The check of part `parts[i]`, given the parts accepted before it. */
  function CheckPart(c: Config, seen: seq<Part>, p: Part, i: nat): Option<ErrorInfo>
  {
    if i >= c.maxFiles then Some(TooManyFiles)
    else if p.fieldname !in c.fields || (exists q :: q in seen && q.fieldname == p.fieldname) then
      Some(UnexpectedField)
    else match c.filter(p)
      case Reject(m) => Some(ErrorInfo(None, Some(m)))
      case Throw(m) => Some(ErrorInfo(None, Some(m)))
      case Accept => if Size(p) > c.maxSize then Some(FileTooLarge) else None
  }

  function CollectFrom(c: Config, parts: seq<Part>, i: nat): Intake
    requires i <= |parts|
    decreases |parts| - i
  {
    if i == |parts| then Accepted(parts)
    else match CheckPart(c, parts[..i], parts[i], i)
      case Some(e) => Rejected(e)
      case None => CollectFrom(c, parts, i + 1)
  }

  /** The middleware run over all parts of a request. */
  function Collect(c: Config, parts: seq<Part>): Intake
  {
    CollectFrom(c, parts, 0)
  }

  /** The conditions every part of an accepted request meets. */
  predicate Admissible(c: Config, parts: seq<Part>)
  {
    && |parts| <= c.maxFiles
    && (forall i :: 0 <= i < |parts| ==> parts[i].fieldname in c.fields)
    && (forall i, j :: 0 <= i < j < |parts| ==> parts[i].fieldname != parts[j].fieldname)
    && (forall i :: 0 <= i < |parts| ==> c.filter(parts[i]) == Accept)
    && (forall i :: 0 <= i < |parts| ==> Size(parts[i]) <= c.maxSize)
  }

  predicate AdmissibleUpTo(c: Config, parts: seq<Part>, n: nat)
    requires n <= |parts|
  {
    && n <= c.maxFiles
    && (forall i :: 0 <= i < n ==> parts[i].fieldname in c.fields)
    && (forall i, j :: 0 <= i < j < n ==> parts[i].fieldname != parts[j].fieldname)
    && (forall i :: 0 <= i < n ==> c.filter(parts[i]) == Accept)
    && (forall i :: 0 <= i < n ==> Size(parts[i]) <= c.maxSize)
  }

  lemma CheckPartNone(c: Config, parts: seq<Part>, i: nat)
    requires i < |parts| && AdmissibleUpTo(c, parts, i)
    ensures CheckPart(c, parts[..i], parts[i], i).None? <==> AdmissibleUpTo(c, parts, i + 1)
  {
    var p := parts[i];
    if CheckPart(c, parts[..i], p, i).None? {
      forall j | 0 <= j < i ensures parts[j].fieldname != p.fieldname {
        assert parts[..i][j] in parts[..i];
      }
    }
  }

  lemma {:induction false} CollectFromAccepts(c: Config, parts: seq<Part>, i: nat)
    requires i <= |parts| && AdmissibleUpTo(c, parts, i)
    ensures CollectFrom(c, parts, i).Accepted? <==> Admissible(c, parts)
    ensures CollectFrom(c, parts, i).Accepted? ==> CollectFrom(c, parts, i).parts == parts
    decreases |parts| - i
  {
    if i < |parts| {
      CheckPartNone(c, parts, i);
      if CheckPart(c, parts[..i], parts[i], i).None? {
        CollectFromAccepts(c, parts, i + 1);
      } else {
        assert !AdmissibleUpTo(c, parts, i + 1);
      }
    }
  }

  /** The middleware passes a request on exactly when every part meets the limits, the field
      declarations and the filter, and then it passes on all parts unchanged. */
  lemma CollectAcceptsIff(c: Config, parts: seq<Part>)
    ensures Collect(c, parts).Accepted? <==> Admissible(c, parts)
    ensures Collect(c, parts).Accepted? ==> Collect(c, parts).parts == parts
  {
    CollectFromAccepts(c, parts, 0);
  }

  /** A `LIMIT_FILE_SIZE` rejection happens only when some part is over the size limit. */
  lemma {:induction false} SizeRejectionNeedsLargePart(c: Config, parts: seq<Part>, i: nat)
    requires i <= |parts|
    requires CollectFrom(c, parts, i) == Rejected(FileTooLarge)
    ensures exists j :: i <= j < |parts| && Size(parts[j]) > c.maxSize
    decreases |parts| - i
  {
    match CheckPart(c, parts[..i], parts[i], i)
    case Some(e) =>
      assert Size(parts[i]) > c.maxSize;
    case None =>
      SizeRejectionNeedsLargePart(c, parts, i + 1);
  }
}
