/** The upload handler, `POST /upload` (routes/uploadRoute.js, l.27-90): the mapping
    of multer's errors to responses, the per-file naming, the image/non-image
    dispatch, the collection of successes and the choice of the response. */
module Upload {
  import opened Wrappers
  import opened Decimal
  import opened Naming

  /** One part of the multipart body as multer hands it over (memory storage). */
  datatype FileDescriptor = FileDescriptor(originalName: string, mimetype: string, size: nat, buffer: seq<bv8>)

  /** The write issued for one file: through the image compressor, or verbatim. */
  datatype WriteAction =
    | CompressImage(buffer: seq<bv8>, path: string)
    | WriteFile(path: string, buffer: seq<bv8>)

  /** One element of the `files` list of a successful response. */
  datatype UploadedEntry = UploadedEntry(filename: string, path: string, url: string, size: nat, mimetype: string)

  /** What the multer callback receives: a `MulterError` with its code, any other
      error, or no error and `req.files` (absent when the body held no files field). */
  datatype ParseResult =
    | MulterError(code: string, message: string)
    | OtherError(message: string)
    | Parsed(files: Option<seq<FileDescriptor>>)

  datatype UploadBody = Failed(error: string) | Processed(message: string, files: seq<UploadedEntry>)

  datatype UploadResponse = UploadResponse(status: nat, body: UploadBody)

  /** What the handler takes from its surroundings: the storage directory, `process.env.HOST`,
      `new Date().toISOString()` as read for the i-th file, and whether performing the
      write for the i-th file completes (false when `compressImage` or `writeFile` rejects). */
  datatype Environment = Environment(
    uploadDir: string,
    host: Option<string>,
    clock: nat -> string,
    performs: (nat, WriteAction) -> bool)

  // ---------------------------------------------------------------------------
  // One file

  predicate StartsWith(s: string, prefix: string) {
    |prefix| <= |s| && s[..|prefix|] == prefix
  }

  /** `file.mimetype.startsWith('image/')`, case-sensitive. */
  predicate IsImage(mimetype: string): (b: bool)
    ensures b <==> |mimetype| >= 6 && mimetype == "image/" + mimetype[6..]
  {
    StartsWith(mimetype, "image/")
  }

  /** Images go to the compressor, everything else is written as received. Either action is
      given the file's buffer and `path`: the compressor writes its re-encoding of the buffer,
      the other branch the buffer unchanged. */
  function Dispatch(file: FileDescriptor, path: string): (w: WriteAction)
    ensures w.CompressImage? <==> IsImage(file.mimetype)
    ensures w.path == path && w.buffer == file.buffer
  {
    if IsImage(file.mimetype) then CompressImage(file.buffer, path) else WriteFile(path, file.buffer)
  }

  /** The media type test looks at the leading characters only, and does not fold case. */
  lemma IsImageExamples()
    ensures IsImage("image/png") && IsImage("image/")
    ensures !IsImage("IMAGE/PNG") && !IsImage("image") && !IsImage("application/pdf")
  {
    assert "image/png"[..6] == "image/";
    assert "IMAGE/PNG"[0] != "image/"[0];
    assert "application/pdf"[0] != "image/"[0];
  }

  /** `path.join(uploadDir, filename)` for a filename that is one path component. */
  function FilePath(uploadDir: string, filename: string): (p: string)
    ensures |p| == |uploadDir| + 1 + |filename| && p[..|uploadDir|] == uploadDir
    ensures p[|p| - |filename| - 1] == '/' && p[|p| - |filename|..] == filename
  {
    uploadDir + "/" + filename
  }

  /** A template literal renders an unset `process.env.HOST` as "undefined". */
  function HostText(host: Option<string>): (t: string)
    ensures host.Some? ==> t == host.value
    ensures host.None? ==> t == "undefined"
  {
    match host
    case Some(h) => h
    case None => "undefined"
  }

  /** The pushed entry: the stored name, its path under /uploads/, that path behind the
      host, and the size and media type the file arrived with. */
  function Entry(file: FileDescriptor, filename: string, host: Option<string>): (e: UploadedEntry)
    ensures e.filename == filename && |e.path| >= 9 && e.path[..9] == "/uploads/" && e.path[9..] == filename
    ensures |e.url| >= |e.path| && e.url[|e.url| - |e.path|..] == e.path && e.url[..|e.url| - |e.path|] == HostText(host)
    ensures e.size == file.size && e.mimetype == file.mimetype
  {
    var path := "/uploads/" + filename;
    UploadedEntry(filename, path, HostText(host) + path, file.size, file.mimetype)
  }

  function FileNameFor(files: seq<FileDescriptor>, env: Environment, i: nat): string
    requires i < |files|
  {
    StoredName(files[i].originalName, TimestampToken(env.clock(i)))
  }

  /** What became of one file: the entry it is listed under, the write issued for it,
      and whether that write completed. */
  datatype Attempt = Attempt(entry: UploadedEntry, write: WriteAction, completed: bool)

  /** The body of the `req.files.map` callback for the i-th file. */
  function AttemptOf(files: seq<FileDescriptor>, env: Environment, i: nat): Attempt
    requires i < |files|
  {
    var filename := FileNameFor(files, env, i);
    var write := Dispatch(files[i], FilePath(env.uploadDir, filename));
    Attempt(Entry(files[i], filename, env.host), write, env.performs(i, write))
  }

  /** One attempt per file, in the order of `req.files`. */
  function Attempts(files: seq<FileDescriptor>, env: Environment): (r: seq<Attempt>)
    ensures |r| == |files|
    ensures forall i :: 0 <= i < |files| ==> r[i] == AttemptOf(files, env, i)
  {
    seq(|files|, i requires 0 <= i < |files| => AttemptOf(files, env, i))
  }

  /** The i-th file's attempt depends only on that file, the clock reading and the write
      outcome for position i, and the shared directory and host: what happens to the
      other files cannot change it. */
  lemma AttemptIsolated(files: seq<FileDescriptor>, env: Environment,
                        files': seq<FileDescriptor>, env': Environment, i: nat)
    requires i < |files| && i < |files'| && files[i] == files'[i]
    requires env.uploadDir == env'.uploadDir && env.host == env'.host && env.clock(i) == env'.clock(i)
    requires forall w :: env.performs(i, w) == env'.performs(i, w)
    ensures AttemptOf(files, env, i) == AttemptOf(files', env', i)
  {
  }

  /** Making one write fail (or succeed) changes no other file's attempt; the
      successes listed are the others' as before, plus or minus that file's entry. */
  lemma {:induction false} FailureIsIsolated(files: seq<FileDescriptor>, env: Environment, env': Environment, j: nat)
    requires env.uploadDir == env'.uploadDir && env.host == env'.host && env.clock == env'.clock
    requires forall k, w :: k != j ==> env.performs(k, w) == env'.performs(k, w)
    ensures forall k :: 0 <= k < |files| && k != j ==> Attempts(files, env)[k] == Attempts(files, env')[k]
    ensures forall e :: e in Collected(Attempts(files, env)) && (j >= |files| || e != Attempts(files, env)[j].entry)
                        ==> e in Collected(Attempts(files, env'))
  {
    var a, a' := Attempts(files, env), Attempts(files, env');
    forall k | 0 <= k < |files| && k != j ensures a[k] == a'[k] {
      AttemptIsolated(files, env, files, env', k);
    }
    forall e | e in Collected(a) && (j >= |files| || e != a[j].entry) ensures e in Collected(a') {
      CollectedMembers(a, e);
      var k :| 0 <= k < |a| && a[k].completed && e == a[k].entry;
      assert k != j;
      CollectedMembers(a', e);
    }
  }

  /** Each success entry names the stored file, serves it under /uploads/, prefixes the
      host to that path, and carries the size and media type the file came with;
      the write for the file goes to that name inside the upload directory. */
  lemma EntryShape(files: seq<FileDescriptor>, env: Environment, i: nat, now: DateTime)
    requires i < |files|
    requires ValidDateTime(now) && 0 <= now.year <= 9999 && env.clock(i) == IsoString(now)
    ensures var a := AttemptOf(files, env, i);
      && a.entry.filename == Sanitize(files[i].originalName) + "-" + CompactDate(now)
      && (forall k :: 0 <= k < |a.entry.filename| ==> IsNameChar(a.entry.filename[k]))
      && a.entry.path == "/uploads/" + a.entry.filename
      && a.entry.url == HostText(env.host) + a.entry.path
      && a.entry.size == files[i].size && a.entry.mimetype == files[i].mimetype
      && a.write.path == env.uploadDir + "/" + a.entry.filename
  {
    StoredNameShape(files[i].originalName, now);
    TokenOfIsoString(now);
  }

  // ---------------------------------------------------------------------------
  // All files

  /** The entries of the completed attempts, in file order. The source pushes them as
      the writes complete, so only counts and membership are claimed of this list. */
  function Collected(attempts: seq<Attempt>): seq<UploadedEntry> {
    if attempts == [] then []
    else
      var last := attempts[|attempts| - 1];
      Collected(attempts[..|attempts| - 1]) + (if last.completed then [last.entry] else [])
  }

  /** The positions of the completed attempts. */
  function CompletedIndices(attempts: seq<Attempt>): set<nat> {
    set k: nat | k < |attempts| && attempts[k].completed
  }

  /** There are never more successes than files. */
  lemma {:induction false} CollectedBound(attempts: seq<Attempt>)
    ensures |Collected(attempts)| <= |attempts|
  {
    if attempts != [] {
      CollectedBound(attempts[..|attempts| - 1]);
    }
  }

  /** There is one entry per completed write, whatever became of the other files. */
  lemma {:induction false} CollectedCount(attempts: seq<Attempt>)
    ensures |Collected(attempts)| == |CompletedIndices(attempts)|
  {
    if attempts != [] {
      var n := |attempts| - 1;
      var init := attempts[..n];
      CollectedCount(init);
      if attempts[n].completed {
        assert CompletedIndices(attempts) == CompletedIndices(init) + {n};
      } else {
        assert CompletedIndices(attempts) == CompletedIndices(init);
      }
    }
  }

  /** An entry is listed exactly when it is the entry of a completed attempt. */
  lemma {:induction false} CollectedMembers(attempts: seq<Attempt>, e: UploadedEntry)
    ensures e in Collected(attempts)
        <==> exists k :: 0 <= k < |attempts| && attempts[k].completed && e == attempts[k].entry
  {
    if attempts != [] {
      var n := |attempts| - 1;
      CollectedMembers(attempts[..n], e);
      assert forall k :: 0 <= k < n ==> attempts[..n][k] == attempts[k];
    }
  }

  /** The list is empty exactly when no write completed. */
  lemma CollectedEmpty(attempts: seq<Attempt>)
    ensures Collected(attempts) == [] <==> forall k :: 0 <= k < |attempts| ==> !attempts[k].completed
  {
    CollectedCount(attempts);
    if k :| 0 <= k < |attempts| && attempts[k].completed {
      assert k in CompletedIndices(attempts);
    } else {
      assert CompletedIndices(attempts) == {};
    }
  }

  /** The i-th attempt is the entry, write and outcome of the i-th file. */
  lemma AttemptParts(files: seq<FileDescriptor>, env: Environment, i: nat, filename: string, write: WriteAction)
    requires i < |files|
    requires filename == FileNameFor(files, env, i)
    requires write == Dispatch(files[i], FilePath(env.uploadDir, filename))
    ensures Attempts(files, env)[i] == Attempt(Entry(files[i], filename, env.host), write, env.performs(i, write))
  {
  }

  /** The writes issued for the attempts, in file order. */
  function Writes(attempts: seq<Attempt>): (r: seq<WriteAction>)
    ensures |r| == |attempts|
  {
    if attempts == [] then [] else Writes(attempts[..|attempts| - 1]) + [attempts[|attempts| - 1].write]
  }

  /** One write per attempt, each at the attempt's position. */
  lemma {:induction false} WritesAt(attempts: seq<Attempt>, k: nat)
    requires k < |attempts|
    ensures Writes(attempts)[k] == attempts[k].write
  {
    var n := |attempts| - 1;
    if k < n {
      WritesAt(attempts[..n], k);
    }
  }

  /** Taking one more attempt into account adds its write, and its entry when the write completed. */
  lemma AttemptStep(attempts: seq<Attempt>, i: nat)
    requires i < |attempts|
    ensures Collected(attempts[..i + 1])
         == Collected(attempts[..i]) + (if attempts[i].completed then [attempts[i].entry] else [])
    ensures Writes(attempts[..i + 1]) == Writes(attempts[..i]) + [attempts[i].write]
  {
    assert attempts[..i + 1][..i] == attempts[..i];
  }

  /** The `Promise.all` over `req.files.map(...)`, run one file after the other: every
      file gets its name, its write is issued, and a completed write pushes its entry.
      A file that fails is only left out; it stops nothing. */
  method ProcessFiles(files: seq<FileDescriptor>, env: Environment)
    returns (uploaded: seq<UploadedEntry>, writes: seq<WriteAction>)
    ensures uploaded == Collected(Attempts(files, env))
    ensures |writes| == |files|
    ensures forall k :: 0 <= k < |files| ==> writes[k] == Attempts(files, env)[k].write
  {
    ghost var attempts := Attempts(files, env);
    uploaded, writes := [], [];
    for i := 0 to |files|
      invariant uploaded == Collected(attempts[..i])
      invariant writes == Writes(attempts[..i])
    {
      var filename := FileNameFor(files, env, i);
      var write := Dispatch(files[i], FilePath(env.uploadDir, filename));
      AttemptParts(files, env, i, filename, write);
      AttemptStep(attempts, i);
      writes := writes + [write];
      if env.performs(i, write) {
        uploaded := uploaded + [Entry(files[i], filename, env.host)];
      }
    }
    assert attempts[..|files|] == attempts;
    forall k | 0 <= k < |files| ensures writes[k] == attempts[k].write {
      WritesAt(attempts, k);
    }
  }

  // ---------------------------------------------------------------------------
  // The response

  const SizeLimitMessage := "File size too large. Maximum size is 50MB per file."
  const NoFilesMessage := "No files uploaded"
  const AllFailedMessage := "Failed to process any of the uploaded files"
  const SummaryPrefix := "Successfully processed "

  /** "Successfully processed X of Y files". */
  function SummaryMessage(processed: nat, total: nat): (m: string)
    ensures StartsWith(m, SummaryPrefix) && |m| >= 6 && m[|m| - 6..] == " files"
  {
    SummaryPrefix + Show(processed) + " of " + Show(total) + " files"
  }

  /** Reads the two counts back out of a summary message. */
  function ParseSummary(m: string): Option<(nat, nat)> {
    if StartsWith(m, SummaryPrefix) then ParseCounts(m[|SummaryPrefix|..]) else None
  }

  /** Reads "X of Y files". */
  function ParseCounts(s: string): Option<(nat, nat)> {
    var (x, afterX) := SplitDigits(s);
    if x == [] || !StartsWith(afterX, " of ") then None else ParseTotal(Value(x), afterX[4..])
  }

  /** Reads "Y files". */
  function ParseTotal(processed: nat, s: string): Option<(nat, nat)> {
    var (y, afterY) := SplitDigits(s);
    if y == [] || afterY != " files" then None else Some((processed, Value(y)))
  }

  lemma ParseTotalOfShow(processed: nat, total: nat)
    ensures ParseTotal(processed, Show(total) + " files") == Some((processed, total))
  {
    SplitAfterDigits(Show(total), " files");
    ShowValue(total);
  }

  lemma ParseCountsOfShow(processed: nat, tail: string)
    ensures ParseCounts(Show(processed) + " of " + tail) == ParseTotal(processed, tail)
  {
    var sx := Show(processed);
    var afterX := " of " + tail;
    assert sx + " of " + tail == sx + afterX;
    assert afterX[0] == ' ';
    SplitAfterDigits(sx, afterX);
    assert afterX[..4] == " of " && afterX[4..] == tail;
    ShowValue(processed);
  }

  lemma ParseSummaryAfterPrefix(rest: string)
    ensures ParseSummary(SummaryPrefix + rest) == ParseCounts(rest)
  {
    assert (SummaryPrefix + rest)[..|SummaryPrefix|] == SummaryPrefix;
    assert (SummaryPrefix + rest)[|SummaryPrefix|..] == rest;
  }

  /** The message reports both counts: they can be read back from it. */
  lemma SummaryRoundTrip(processed: nat, total: nat)
    ensures ParseSummary(SummaryMessage(processed, total)) == Some((processed, total))
  {
    var tail := Show(total) + " files";
    var rest := Show(processed) + " of " + tail;
    assert SummaryMessage(processed, total) == SummaryPrefix + rest;
    ParseSummaryAfterPrefix(rest);
    ParseCountsOfShow(processed, tail);
    ParseTotalOfShow(processed, total);
  }

  /** The multer callback: parse errors first, then the empty request, then the files. */
  method HandleUpload(parsed: ParseResult, env: Environment)
    returns (resp: UploadResponse, writes: seq<WriteAction>)
    ensures parsed.MulterError? && parsed.code == "LIMIT_FILE_SIZE"
      ==> resp == UploadResponse(400, Failed(SizeLimitMessage)) && writes == []
    ensures parsed.MulterError? && parsed.code != "LIMIT_FILE_SIZE"
      ==> resp == UploadResponse(400, Failed(parsed.message)) && writes == []
    ensures parsed.OtherError?
      ==> resp == UploadResponse(500, Failed("Upload failed: " + parsed.message)) && writes == []
    ensures parsed.Parsed? && (parsed.files.None? || parsed.files.value == [])
      ==> resp == UploadResponse(400, Failed(NoFilesMessage)) && writes == []
    ensures parsed.Parsed? && parsed.files.Some? && parsed.files.value != [] ==>
      var files := parsed.files.value;
      var attempts := Attempts(files, env);
      && |writes| == |files|
      && (forall k :: 0 <= k < |files| ==> writes[k] == attempts[k].write)
      && (resp.status == 500 <==> forall k :: 0 <= k < |files| ==> !attempts[k].completed)
      && (resp.status == 500 ==> resp.body == Failed(AllFailedMessage))
      && (resp.status != 500 ==>
            var uploaded := Collected(attempts);
            && resp.status == 200
            && resp.body == Processed(SummaryMessage(|uploaded|, |files|), uploaded)
            && 1 <= |uploaded| <= |files|)
  {
    writes := [];
    match parsed
    case MulterError(code, message) =>
      if code == "LIMIT_FILE_SIZE" {
        resp := UploadResponse(400, Failed(SizeLimitMessage));
      } else {
        resp := UploadResponse(400, Failed(message));
      }
    case OtherError(message) =>
      resp := UploadResponse(500, Failed("Upload failed: " + message));
    case Parsed(None) =>
      resp := UploadResponse(400, Failed(NoFilesMessage));
    case Parsed(Some(files)) =>
      if |files| == 0 {
        resp := UploadResponse(400, Failed(NoFilesMessage));
      } else {
        var uploaded;
        uploaded, writes := ProcessFiles(files, env);
        CollectedEmpty(Attempts(files, env));
        CollectedBound(Attempts(files, env));
        if |uploaded| == 0 {
          resp := UploadResponse(500, Failed(AllFailedMessage));
        } else {
          resp := UploadResponse(200, Processed(SummaryMessage(|uploaded|, |files|), uploaded));
        }
      }
  }
}
