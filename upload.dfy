/** The media ingestion route, POST /api/upload: one video, one audio and one utterance file for
    one conversational turn, stored under uploads/<user_id>/<session_id>/<turn_id>/. */
module Upload {
  import opened JsStrings
  import opened JsValues
  import opened FileStore
  import opened Multer

  /** The three upload slots. */
  datatype Role = Video | Audio | Utterance

  function FieldName(r: Role): string
  {
    match r
    case Video => "video"
    case Audio => "audio"
    case Utterance => "utterance"
  }

  /** The slot a multipart field name stands for, if any. */
  function RoleOf(field: string): (r: Option<Role>)
    ensures r.Some? ==> FieldName(r.value) == field
    ensures r.None? ==> forall x: Role :: FieldName(x) != field
  {
    if field == "video" then Some(Video)
    else if field == "audio" then Some(Audio)
    else if field == "utterance" then Some(Utterance)
    else None
  }

  /** The `allowedExtensions` table of the file filter. */
  function AllowedExtensions(r: Role): seq<string>
  {
    match r
    case Video => [".mp4", ".avi", ".mov", ".wmv", ".webm"]
    case Audio => [".mp3", ".wav", ".ogg", ".m4a", ".aac"]
    case Utterance => [".json"]
  }

  const InvalidFileType := "Invalid file type"

  /** The error message of a rejected part of a known slot. */
  function InvalidTypeMessage(r: Role): string
  {
    InvalidFileType + (" for " + FieldName(r) + ". Allowed: " + Join(AllowedExtensions(r), ", "))
  }

  /** The names under which Object.prototype gives every object literal a property, so that
      `allowedExtensions[name]` is truthy although `name` is not a slot. */
  const ObjectPrototypeNames: set<string> := {
    "constructor", "__proto__", "hasOwnProperty", "isPrototypeOf", "propertyIsEnumerable",
    "toString", "toLocaleString", "valueOf",
    "__defineGetter__", "__defineSetter__", "__lookupGetter__", "__lookupSetter__" }

  /** The `fileFilter`: a part is accepted when its field is a slot and the lower-cased extension of
      its original name is in that slot's list; a known slot with another extension is rejected
      with an "Invalid file type" error; for any other field name the filter itself throws a
      TypeError, because `allowedExtensions[fieldName]` has no `includes` or no `join`. */
  function FileFilter(fieldname: string, originalname: string): (out: FilterOutcome)
    ensures out.Throw? <==> RoleOf(fieldname).None?
    ensures out.Reject? ==> Includes(out.message, "Invalid file type")
    ensures out.Accept? ==> originalname != "" && ExtName(originalname) != ""
  {
    var ext := ToLower(ExtName(originalname));
    match RoleOf(fieldname)
    case Some(r) =>
      if ext in AllowedExtensions(r) then
        EmptyNameHasNoExtension(originalname);
        Accept
      else
        InvalidTypeMessageIncludes(r);
        Reject(InvalidTypeMessage(r))
    case None =>
      if fieldname in ObjectPrototypeNames then
        Throw("allowedExtensions[fieldName].includes is not a function")
      else
        Throw("Cannot read properties of undefined (reading 'join')")
  }

  lemma InvalidTypeMessageIncludes(r: Role)
    ensures Includes(InvalidTypeMessage(r), "Invalid file type")
  {
    IncludesPrefix(InvalidFileType, " for " + FieldName(r) + ". Allowed: " + Join(AllowedExtensions(r), ", "));
  }

  /** No listed extension is empty, and the empty name has the empty extension. */
  lemma EmptyNameHasNoExtension(name: string)
    ensures ExtName(name) == "" ==> forall r :: ToLower(ExtName(name)) !in AllowedExtensions(r)
    ensures name == "" ==> ExtName(name) == ""
  {
    assert ToLower("") == "";
    forall r ensures "" !in AllowedExtensions(r) {
      NoEmptyExtension(r);
    }
    if name == "" {
      assert BaseName(name) == "" && LastDot("") == -1;
    }
  }

  lemma NoEmptyExtension(r: Role)
    ensures forall i :: 0 <= i < |AllowedExtensions(r)| ==> |AllowedExtensions(r)[i]| > 0
  {
  }

  const MaxFileSize: nat := 100 * 1024 * 1024
  const MaxFiles: nat := 3

  /** The middleware configuration: one file for each slot, three files in all, 100 MiB each. */
  function UploadConfig(): Config
  {
    Config(["video", "audio", "utterance"], MaxFiles, MaxFileSize,
      (p: Part) => FileFilter(p.fieldname, p.originalname))
  }

  /** `req.files` as the handler sees it: the part of each slot, if one was sent. */
  datatype FilesObject = FilesObject(video: Option<Part>, audio: Option<Part>, utterance: Option<Part>)

  function Slot(f: FilesObject, r: Role): Option<Part>
  {
    match r
    case Video => f.video
    case Audio => f.audio
    case Utterance => f.utterance
  }

  /** The part sent under `field`, if any. */
  function Find(parts: seq<Part>, field: string): (r: Option<Part>)
    ensures r.Some? ==> r.value in parts && r.value.fieldname == field
    ensures r.None? ==> forall p :: p in parts ==> p.fieldname != field
  {
    if parts == [] then None
    else if parts[0].fieldname == field then Some(parts[0])
    else Find(parts[1..], field)
  }

  /** The `req.files` object the middleware builds from the accepted parts. */
  function FilesOf(parts: seq<Part>): FilesObject
  {
    FilesObject(Find(parts, "video"), Find(parts, "audio"), Find(parts, "utterance"))
  }

  /** The request headers: `x-user-id`, `x-session-id` and `x-turn-id` (None when absent). */
  datatype Identity = Identity(userId: Option<string>, sessionId: Option<string>, turnId: Option<string>)

  /** A request as the handler receives it. `files` is None when the request was not multipart, so
      that the middleware left `req.files` undefined. */
  datatype Request = Request(headers: Identity, files: Option<FilesObject>)

  predicate HasIdentity(id: Identity)
  {
    Given(id.userId) && Given(id.sessionId) && Given(id.turnId)
  }

  /** `turnDir`: uploads/<user_id>/<session_id>/<turn_id> under the upload root. */
  function TurnDir(root: Path, id: Identity): (d: Path)
    requires HasIdentity(id)
    ensures |d| == |root| + 3 && d[..|root|] == root
    ensures d[|root|..] == [id.userId.value, id.sessionId.value, id.turnId.value]
  {
    root + [id.userId.value, id.sessionId.value, id.turnId.value]
  }

  /** One entry of `uploaded_files`. */
  datatype Artifact = Artifact(role: Role, filename: string, originalName: string, size: nat, path: Path)

  datatype UploadData = UploadData(
    user_id: string, session_id: string, turn_id: string, timestamp: string,
    uploaded_files: seq<Artifact>, file_count: nat, total_size: nat, turn_dir: Path)

  datatype Body =
    | Uploaded(successMessage: string, data: UploadData)
    | Error(error: string, message: Option<string>)

  datatype Response = Response(status: nat, body: Body)

  const MissingIdentity := Response(400, Error("Missing required parameters",
    Some("X-User-ID, X-Session-ID, X-Turn-ID headers are required")))

  /** The message of the TypeError thrown by `files.video` when `req.files` is undefined. */
  const FilesUndefinedMessage := "Cannot read properties of undefined (reading 'video')"

  /** The catch block: a size-limit error is 413, checked first; then an error whose message
      contains "Invalid file type" is 400 with that message; anything else is 500. */
  function ClassifyError(e: ErrorInfo): (r: Response)
    ensures e.code == Some("LIMIT_FILE_SIZE") ==> r.status == 413
    ensures r.status == 400 ==>
      e.message.Some? && Includes(e.message.value, "Invalid file type") &&
      r.body == Error("Invalid file type", e.message)
    ensures r.status in {400, 413, 500}
  {
    if e.code == Some("LIMIT_FILE_SIZE") then
      Response(413, Error("File too large", Some("Maximum file size is 100MB")))
    else if e.message.Some? && e.message.value != "" && Includes(e.message.value, "Invalid file type") then
      Response(400, Error("Invalid file type", e.message))
    else
      Response(500, Error("Upload failed", e.message))
  }

  /** The entry recorded for the part of slot `r`, written into `dir`. */
  function ArtifactOf(dir: Path, r: Role, p: Part): Artifact
  {
    Artifact(r, p.originalname, p.originalname, Size(p), dir + [p.originalname])
  }

  function Entry(dir: Path, r: Role, slot: Option<Part>): seq<Artifact>
  {
    if slot.Some? then [ArtifactOf(dir, r, slot.value)] else []
  }

  /** `uploaded_files` in insertion order: video, audio, utterance, each only when present. */
  function Artifacts(dir: Path, f: FilesObject): seq<Artifact>
  {
    Entry(dir, Video, f.video) + Entry(dir, Audio, f.audio) + Entry(dir, Utterance, f.utterance)
  }

  function Write(m: map<Path, Content>, dir: Path, slot: Option<Part>): map<Path, Content>
  {
    if slot.Some? then m[dir + [slot.value.originalname] := Bytes(slot.value.buffer)] else m
  }

  /** The store after the three write blocks, in their order. */
  function StoreAll(m: map<Path, Content>, dir: Path, f: FilesObject): map<Path, Content>
  {
    Write(Write(Write(m, dir, f.video), dir, f.audio), dir, f.utterance)
  }

  /** `Object.values(uploadedFiles).reduce((sum, file) => sum + file.size, 0)`. */
  function TotalSize(s: seq<Artifact>): nat
  {
    if s == [] then 0 else TotalSize(s[..|s| - 1]) + s[|s| - 1].size
  }

  /** One of the three write blocks: the part goes to <dir>/<originalname>, name used verbatim. */
  method StoreFile(fs: FileSystem, dir: Path, r: Role, p: Part) returns (a: Artifact)
    modifies fs
    ensures a == ArtifactOf(dir, r, p)
    ensures fs.files == old(fs.files)[dir + [p.originalname] := Bytes(p.buffer)]
    ensures fs.dirs == old(fs.dirs)
  {
    var filename := p.originalname;
    var path := dir + [filename];
    fs.WriteFile(path, Bytes(p.buffer));
    a := Artifact(r, filename, p.originalname, Size(p), path);
  }

  /** The route handler. The identity check comes before any directory is created; then the turn
      directory is ensured and each present part is written in the order video, audio, utterance. */
  method HandleUpload(fs: FileSystem, root: Path, req: Request, now: string) returns (resp: Response)
    modifies fs
    ensures !HasIdentity(req.headers) ==>
      resp == MissingIdentity && fs.files == old(fs.files) && fs.dirs == old(fs.dirs)
    ensures HasIdentity(req.headers) ==>
      fs.dirs == old(fs.dirs) + Ancestry(TurnDir(root, req.headers))
    ensures HasIdentity(req.headers) && req.files.None? ==>
      resp == ClassifyError(ErrorInfo(None, Some(FilesUndefinedMessage))) && fs.files == old(fs.files)
    ensures HasIdentity(req.headers) && req.files.Some? ==>
      var dir := TurnDir(root, req.headers);
      var entries := Artifacts(dir, req.files.value);
      && fs.files == StoreAll(old(fs.files), dir, req.files.value)
      && resp == Response(201, Uploaded("Files uploaded successfully",
           UploadData(req.headers.userId.value, req.headers.sessionId.value, req.headers.turnId.value,
             now, entries, |entries|, TotalSize(entries), dir)))
  {
    var id := req.headers;
    if !(Given(id.userId) && Given(id.sessionId) && Given(id.turnId)) {
      return MissingIdentity;
    }
    var turnDir := TurnDir(root, id);
    fs.EnsureDir(turnDir);
    if req.files.None? {
      return ClassifyError(ErrorInfo(None, Some(FilesUndefinedMessage)));
    }
    var files := req.files.value;
    ghost var before := fs.files;
    var uploadedFiles: seq<Artifact> := [];
    if files.video.Some? {
      var a := StoreFile(fs, turnDir, Video, files.video.value);
      uploadedFiles := uploadedFiles + [a];
    }
    if files.audio.Some? {
      var a := StoreFile(fs, turnDir, Audio, files.audio.value);
      uploadedFiles := uploadedFiles + [a];
    }
    if files.utterance.Some? {
      var a := StoreFile(fs, turnDir, Utterance, files.utterance.value);
      uploadedFiles := uploadedFiles + [a];
    }
    assert uploadedFiles == Artifacts(turnDir, files);
    assert fs.files == StoreAll(before, turnDir, files);
    var data := UploadData(id.userId.value, id.sessionId.value, id.turnId.value, now,
      uploadedFiles, |uploadedFiles|, TotalSize(uploadedFiles), turnDir);
    resp := Response(201, Uploaded("Files uploaded successfully", data));
  }

  /** What `mimeTypes[key] || 'application/octet-stream'` gives: a string, or, for a key naming a
      member every object inherits, that member (a function, or Object.prototype itself for
      "__proto__"), which is truthy and so is returned as it is. */
  datatype MimeLookup = MimeString(mime: string) | Inherited(name: string)

  /** `getMimeType`: the MIME type of a whitelisted extension, matched case-insensitively, the
      inherited member for a name of Object.prototype, and "application/octet-stream" for every
      other argument. */
  function MimeType(ext: string): MimeLookup
  {
    var key := ToLower(ext);
    if key in ObjectPrototypeNames then Inherited(key) else MimeString(MimeOfKey(key))
  }

  /** The table and default of getMimeType for a key that is not a member of Object.prototype. */
  function MimeOfKey(key: string): string
  {
    match key
    case ".mp4" => "video/mp4"
    case ".avi" => "video/avi"
    case ".mov" => "video/quicktime"
    case ".wmv" => "video/x-ms-wmv"
    case ".webm" => "video/webm"
    case ".mp3" => "audio/mpeg"
    case ".wav" => "audio/wav"
    case ".ogg" => "audio/ogg"
    case ".m4a" => "audio/mp4"
    case ".aac" => "audio/aac"
    case ".json" => "application/json"
    case _ => "application/octet-stream"
  }

  /** The MIME type prefix that fits a slot. */
  function MimePrefix(r: Role): string
  {
    match r
    case Video => "video/"
    case Audio => "audio/"
    case Utterance => "application/json"
  }

  // ---------------------------------------------------------------------------------------------
  // The file filter

  /** A part of a slot's field is accepted exactly when its lower-cased extension is listed for
      that slot. */
  lemma FilterAcceptsIff(r: Role, name: string)
    ensures FileFilter(FieldName(r), name).Accept? <==> ToLower(ExtName(name)) in AllowedExtensions(r)
  {
    assert RoleOf(FieldName(r)) == Some(r);
  }

  /** The extension test ignores case: for a name "<base>.<x>", a slot accepts it exactly when
      "." + lower-case x is in the slot's list, so "A.MP4" is a video. */
  lemma FilterCaseInsensitive(r: Role, base: string, x: string)
    requires base != [] && '/' !in base
    requires x != [] && '.' !in x && '/' !in x
    ensures FileFilter(FieldName(r), base + "." + x).Accept? <==> "." + ToLower(x) in AllowedExtensions(r)
  {
    FilterAcceptsIff(r, base + "." + x);
    ExtNameOfSuffix(base, x);
    ToLowerDotPrefix(x);
  }

  /** Whatever the base name, "<base>.MP4" is accepted as a video. */
  lemma UpperCaseVideoAccepted(base: string)
    requires base != [] && '/' !in base
    ensures FileFilter("video", base + ".MP4") == Accept
  {
    assert base + "." + "MP4" == base + ".MP4";
    var l := ToLower("MP4");
    assert l[0] == 'm' && l[1] == 'p' && l[2] == '4';
    assert "." + l == ".mp4";
    assert FieldName(Video) == "video";
    FilterCaseInsensitive(Video, base, "MP4");
  }


  /** No extension is listed for two slots. */
  lemma WhitelistsDisjoint(r1: Role, r2: Role, e: string)
    requires r1 != r2 && e in AllowedExtensions(r1)
    ensures e !in AllowedExtensions(r2)
  {
  }

  /** An accepted name determines its slot: no original name passes the filter for two fields. */
  lemma AcceptedNameDeterminesField(f1: string, f2: string, name: string)
    requires FileFilter(f1, name).Accept? && FileFilter(f2, name).Accept?
    ensures f1 == f2
  {
    var r1, r2 := RoleOf(f1).value, RoleOf(f2).value;
    FilterAcceptsIff(r1, name);
    FilterAcceptsIff(r2, name);
    if r1 != r2 {
      WhitelistsDisjoint(r1, r2, ToLower(ExtName(name)));
    }
  }

  /** Every present slot holds a part the filter accepted for that slot. */
  predicate FilesPassFilter(f: FilesObject)
  {
    forall r :: Slot(f, r).Some? ==> FileFilter(FieldName(r), Slot(f, r).value.originalname).Accept?
  }

  /** Parts in different slots have different original names. */
  predicate DistinctNames(f: FilesObject)
  {
    forall r1, r2 :: r1 != r2 && Slot(f, r1).Some? && Slot(f, r2).Some? ==>
      Slot(f, r1).value.originalname != Slot(f, r2).value.originalname
  }

  /** Files that passed the filter never share a name: a name is accepted by one slot only. */
  lemma FilteredNamesDistinct(f: FilesObject)
    requires FilesPassFilter(f)
    ensures DistinctNames(f)
  {
    forall r1, r2 | r1 != r2 && Slot(f, r1).Some? && Slot(f, r2).Some?
      ensures Slot(f, r1).value.originalname != Slot(f, r2).value.originalname
    {
      AcceptedNamesDiffer(r1, r2, Slot(f, r1).value.originalname, Slot(f, r2).value.originalname);
    }
  }

  /** Names that two different slots accept are different names. */
  lemma AcceptedNamesDiffer(r1: Role, r2: Role, n1: string, n2: string)
    requires r1 != r2
    requires FileFilter(FieldName(r1), n1).Accept? && FileFilter(FieldName(r2), n2).Accept?
    ensures n1 != n2
  {
    FilterAcceptsIff(r1, n1);
    FilterAcceptsIff(r2, n2);
    if n1 == n2 {
      WhitelistsDisjoint(r1, r2, ToLower(ExtName(n1)));
    }
  }

  // ---------------------------------------------------------------------------------------------
  // The middleware in front of the handler

  /** What an accepted request's parts meet under this route's configuration. */
  predicate UploadAdmissible(parts: seq<Part>)
  {
    && (forall i :: 0 <= i < |parts| ==> RoleOf(parts[i].fieldname).Some?)
    && (forall i, j :: 0 <= i < j < |parts| ==> parts[i].fieldname != parts[j].fieldname)
    && (forall i :: 0 <= i < |parts| ==> FileFilter(parts[i].fieldname, parts[i].originalname).Accept?)
    && (forall i :: 0 <= i < |parts| ==> Size(parts[i]) <= MaxFileSize)
  }

  lemma IntakeAdmissible(parts: seq<Part>)
    requires Collect(UploadConfig(), parts).Accepted?
    ensures UploadAdmissible(parts)
  {
    var c := UploadConfig();
    CollectAcceptsIff(c, parts);
    forall i | 0 <= i < |parts|
      ensures FileFilter(parts[i].fieldname, parts[i].originalname).Accept?
      ensures RoleOf(parts[i].fieldname).Some?
    {
      assert c.filter(parts[i]) == Accept;
    }
  }

  /** When the middleware passes a request on, each slot holds a part of that field which the
      filter accepted and which is at most 100 MiB. */
  lemma IntakeGivesFilteredFiles(parts: seq<Part>)
    requires UploadAdmissible(parts)
    ensures FilesPassFilter(FilesOf(parts))
    ensures forall r :: Slot(FilesOf(parts), r).Some? ==>
      Slot(FilesOf(parts), r).value.fieldname == FieldName(r) && Size(Slot(FilesOf(parts), r).value) <= MaxFileSize
  {
    var f := FilesOf(parts);
    forall r ensures Slot(f, r).Some? ==> FileFilter(FieldName(r), Slot(f, r).value.originalname).Accept? {
      SlotHoldsAdmissiblePart(parts, r);
    }
    forall r ensures Slot(f, r).Some? ==> Slot(f, r).value.fieldname == FieldName(r) && Size(Slot(f, r).value) <= MaxFileSize {
      SlotHoldsAdmissiblePart(parts, r);
    }
  }

  /** What the part in slot `r`, if any, meets. */
  predicate SlotAdmissible(parts: seq<Part>, r: Role)
  {
    var s := Slot(FilesOf(parts), r);
    s.Some? ==>
      s.value.fieldname == FieldName(r) && FileFilter(FieldName(r), s.value.originalname).Accept?
      && Size(s.value) <= MaxFileSize
  }

  lemma SlotHoldsAdmissiblePart(parts: seq<Part>, r: Role)
    requires UploadAdmissible(parts)
    ensures SlotAdmissible(parts, r)
  {
    assert Slot(FilesOf(parts), r) == Find(parts, FieldName(r));
    FoundPartAdmissible(parts, FieldName(r));
  }


  lemma FoundPartAdmissible(parts: seq<Part>, field: string)
    requires UploadAdmissible(parts)
    ensures Find(parts, field).Some? ==>
      FileFilter(field, Find(parts, field).value.originalname).Accept? && Size(Find(parts, field).value) <= MaxFileSize
  {
    if Find(parts, field).Some? {
      var p := Find(parts, field).value;
      var i :| 0 <= i < |parts| && parts[i] == p;
    }
  }

  /** ... and no part of the request is left out of `req.files`. */
  lemma IntakeKeepsEveryPart(parts: seq<Part>)
    requires UploadAdmissible(parts)
    ensures forall p :: p in parts ==> exists r :: Slot(FilesOf(parts), r) == Some(p)
  {
    forall p | p in parts ensures exists r :: Slot(FilesOf(parts), r) == Some(p) {
      var i :| 0 <= i < |parts| && parts[i] == p;
      PartInItsSlot(parts, i);
    }
  }

  /** Each part lands in the slot of its field. */
  lemma PartInItsSlot(parts: seq<Part>, i: nat)
    requires UploadAdmissible(parts) && i < |parts|
    ensures RoleOf(parts[i].fieldname).Some?
    ensures Slot(FilesOf(parts), RoleOf(parts[i].fieldname).value) == Some(parts[i])
  {
    var r := RoleOf(parts[i].fieldname).value;
    assert Slot(FilesOf(parts), r) == Find(parts, FieldName(r));
    FindUnique(parts, i);
  }

  /** With no field name repeated, the part found under a part's field name is that part. */
  lemma FindUnique(parts: seq<Part>, i: nat)
    requires forall i, j :: 0 <= i < j < |parts| ==> parts[i].fieldname != parts[j].fieldname
    requires i < |parts|
    ensures Find(parts, parts[i].fieldname) == Some(parts[i])
  {
    var q := Find(parts, parts[i].fieldname);
    assert parts[i] in parts;
    var k :| 0 <= k < |parts| && parts[k] == q.value;
    assert k == i;
  }


  // ---------------------------------------------------------------------------------------------
  // The handler's record and store

  /** `uploaded_files` has an entry exactly for each present slot, in slot order, and each entry
      names the client's file name, its size and the path it was written to. */
  lemma ArtifactsMatchSlots(dir: Path, f: FilesObject)
    ensures |Artifacts(dir, f)| <= 3
    ensures forall r :: (exists a :: a in Artifacts(dir, f) && a.role == r) <==> Slot(f, r).Some?
    ensures forall a :: a in Artifacts(dir, f) ==>
      && Slot(f, a.role).Some?
      && a.filename == a.originalName == Slot(f, a.role).value.originalname
      && a.size == Size(Slot(f, a.role).value)
      && a.path == dir + [a.filename]
    ensures forall i, j :: 0 <= i < j < |Artifacts(dir, f)| ==>
      Artifacts(dir, f)[i].role != Artifacts(dir, f)[j].role
  {
    var s := Artifacts(dir, f);
    forall r | Slot(f, r).Some? ensures exists a :: a in s && a.role == r {
      assert ArtifactOf(dir, r, Slot(f, r).value) in s;
    }
  }

  function SlotSize(slot: Option<Part>): nat
  {
    if slot.Some? then Size(slot.value) else 0
  }

  lemma {:induction false} TotalSizeAppend(a: seq<Artifact>, b: seq<Artifact>)
    ensures TotalSize(a + b) == TotalSize(a) + TotalSize(b)
    decreases |b|
  {
    if b != [] {
      var b' := b[..|b| - 1];
      assert (a + b)[..|a + b| - 1] == a + b';
      TotalSizeAppend(a, b');
    } else {
      assert a + b == a;
    }
  }

  /** `total_size` is the sum of the sizes of the parts present; with no file it is 0. */
  lemma TotalSizeIsSum(dir: Path, f: FilesObject)
    ensures TotalSize(Artifacts(dir, f)) == SlotSize(f.video) + SlotSize(f.audio) + SlotSize(f.utterance)
  {
    var v, a, u := Entry(dir, Video, f.video), Entry(dir, Audio, f.audio), Entry(dir, Utterance, f.utterance);
    TotalSizeAppend(v + a, u);
    TotalSizeAppend(v, a);
    assert TotalSize(v) == SlotSize(f.video);
    assert TotalSize(a) == SlotSize(f.audio);
    assert TotalSize(u) == SlotSize(f.utterance);
  }

  /** For a request the middleware accepted, `file_count` is at most 3 and `total_size` at most
      3 * 100 MiB. */
  lemma AcceptedRequestBounds(parts: seq<Part>, dir: Path)
    requires Collect(UploadConfig(), parts).Accepted?
    ensures |Artifacts(dir, FilesOf(parts))| <= MaxFiles
    ensures TotalSize(Artifacts(dir, FilesOf(parts))) <= 3 * MaxFileSize
  {
    var f := FilesOf(parts);
    IntakeAdmissible(parts);
    IntakeGivesFilteredFiles(parts);
    ArtifactsMatchSlots(dir, f);
    TotalSizeIsSum(dir, f);
    assert Slot(f, Video) == f.video && Slot(f, Audio) == f.audio && Slot(f, Utterance) == f.utterance;
  }

  /** After the handler's writes, each present slot's path, <dir>/<originalname>, holds that
      slot's bytes when the names are distinct, and every path that is not one of them is as before. */
  lemma StoredAtPaths(m: map<Path, Content>, dir: Path, f: FilesObject)
    requires DistinctNames(f)
    ensures forall r :: Slot(f, r).Some? ==>
      var p := dir + [Slot(f, r).value.originalname];
      p in StoreAll(m, dir, f) && StoreAll(m, dir, f)[p] == Bytes(Slot(f, r).value.buffer)
  {
    forall r | Slot(f, r).Some?
      ensures var p := dir + [Slot(f, r).value.originalname];
        p in StoreAll(m, dir, f) && StoreAll(m, dir, f)[p] == Bytes(Slot(f, r).value.buffer)
    {
      var n := Slot(f, r).value.originalname;
      forall r' | r' != r && Slot(f, r').Some? ensures dir + [Slot(f, r').value.originalname] != dir + [n] {
        assert (dir + [n])[|dir|] == n;
        assert (dir + [Slot(f, r').value.originalname])[|dir|] == Slot(f, r').value.originalname;
      }
      assert Slot(f, Video) == f.video && Slot(f, Audio) == f.audio && Slot(f, Utterance) == f.utterance;
    }
  }

  lemma StoreAllFrame(m: map<Path, Content>, dir: Path, f: FilesObject, p: Path)
    requires forall r :: Slot(f, r).Some? ==> p != dir + [Slot(f, r).value.originalname]
    ensures (p in StoreAll(m, dir, f) <==> p in m) && (p in m ==> StoreAll(m, dir, f)[p] == m[p])
  {
    assert Slot(f, Video) == f.video && Slot(f, Audio) == f.audio && Slot(f, Utterance) == f.utterance;
  }

  // ---------------------------------------------------------------------------------------------
  // getMimeType and the catch block

  /** No name of Object.prototype is empty or starts with '.'. */
  lemma PrototypeNamesUndotted(key: string)
    requires key in ObjectPrototypeNames
    ensures key != "" && key[0] != '.'
  {
  }

  /** Every whitelisted extension, in any case, maps to a MIME type of its slot's kind. */
  lemma MimeTypeFitsRole(r: Role, e: string)
    requires ToLower(e) in AllowedExtensions(r)
    ensures MimeType(e).MimeString? && MimePrefix(r) <= MimeType(e).mime
  {
    if ToLower(e) in ObjectPrototypeNames {
      PrototypeNamesUndotted(ToLower(e));
    }
  }

  /** Exactly the arguments outside all three lists that do not name a member of
      Object.prototype map to "application/octet-stream". */
  lemma MimeTypeDefault(e: string)
    ensures MimeType(e) == MimeString("application/octet-stream") <==>
      ToLower(e) !in ObjectPrototypeNames && forall r :: ToLower(e) !in AllowedExtensions(r)
  {
    var key := ToLower(e);
    if key !in ObjectPrototypeNames && MimeOfKey(key) != "application/octet-stream" {
      assert key in AllowedExtensions(Video) || key in AllowedExtensions(Audio)
        || key in AllowedExtensions(Utterance);
    }
  }

  /** What `path.extname` returns never names a member of Object.prototype, so getMimeType of an
      extension always gives a string. */
  lemma MimeTypeOfExtName(p: string)
    ensures MimeType(ExtName(p)).MimeString?
  {
    var e := ExtName(p);
    var key := ToLower(e);
    if key in ObjectPrototypeNames {
      PrototypeNamesUndotted(key);
    }
  }

  /** getMimeType does not depend on case. */
  lemma MimeTypeIgnoresCase(e: string)
    ensures MimeType(e) == MimeType(ToLower(e))
  {
    ToLowerIdempotent(e);
  }

  /** The status the catch block chooses, in all three directions. */
  lemma ClassifyErrorStatus(e: ErrorInfo)
    ensures ClassifyError(e).status == 413 <==> e.code == Some("LIMIT_FILE_SIZE")
    ensures ClassifyError(e).status == 400 <==>
      e.code != Some("LIMIT_FILE_SIZE") && e.message.Some? && Includes(e.message.value, InvalidFileType)
    ensures ClassifyError(e).status == 500 ==> ClassifyError(e).body == Error("Upload failed", e.message)
  {
    if e.message == Some("") {
      assert !("Invalid file type" <= "");
    }
  }

  /** The filter's rejection error, handled by this catch block, would be a 400 that repeats the
      filter's message. */
  lemma FilterRejectionClassified(fieldname: string, name: string)
    requires FileFilter(fieldname, name).Reject?
    ensures var m := FileFilter(fieldname, name).message;
      ClassifyError(ErrorInfo(None, Some(m))) == Response(400, Error("Invalid file type", Some(m)))
  {
    ClassifyErrorStatus(ErrorInfo(None, Some(FileFilter(fieldname, name).message)));
  }
}
