/** The upload route (frontend/app/api/upload/route.ts): the parsed form
    files are flattened into one list and each file is put into the S3
    bucket; the response is 200 with every upload's result, or 500 when
    anything fails. Form parsing, the file system and S3 are parameters. */
module Upload {
  import opened Wrap

  /** A file as the form parser describes it. */
  datatype File = File(originalFilename: string, mimetype: string, filepath: string)

  /** A value of `Object.values(files)`: one file, or an array of them; any
      of them may be missing. */
  datatype Entry = Single(file: Option<File>) | Multiple(files: seq<Option<File>>)

  /** The `PutObjectRequest` built for one file. */
  datatype PutObjectRequest = PutObjectRequest(bucket: string, key: string, body: seq<int>, contentType: string)

  /** The result of one finished upload, as S3 reports it. */
  datatype SendData = SendData(bucket: string, key: string, location: string)

  datatype Body = Files(files: seq<SendData>) | Error(error: string)

  datatype Response = Response(status: nat, body: Body)

  const UploadError := "Error uploading the files"

  // ---------------------------------------------------------------------------
  // Flattening

  /** The files present among `files`, in order. */
  function Present(files: seq<Option<File>>): seq<File>
  {
    if files == [] then []
    else Present(files[..|files| - 1]) + (if files[|files| - 1].Some? then [files[|files| - 1].value] else [])
  }

  /** What one entry contributes to `fileArray`. */
  function EntryFiles(entry: Entry): seq<File>
  {
    match entry
    case Single(file) => if file.Some? then [file.value] else []
    case Multiple(files) => Present(files)
  }

  /** `fileArray` after visiting `entries` in order. */
  function Flatten(entries: seq<Entry>): seq<File>
  {
    if entries == [] then []
    else Flatten(entries[..|entries| - 1]) + EntryFiles(entries[|entries| - 1])
  }

  /** Within an array entry, the present files keep their order. */
  lemma PresentSnoc(files: seq<Option<File>>, j: nat)
    requires j < |files|
    ensures Present(files[..j + 1]) == Present(files[..j]) + (if files[j].Some? then [files[j].value] else [])
  {
    assert files[..j + 1][..j] == files[..j];
  }

  /** The output follows entry order: visiting one more entry appends what
      it holds. */
  lemma FlattenSnoc(entries: seq<Entry>, i: nat)
    requires i < |entries|
    ensures Flatten(entries[..i + 1]) == Flatten(entries[..i]) + EntryFiles(entries[i])
  {
    assert entries[..i + 1][..i] == entries[..i];
  }

  /** The `forEach` callback for one entry, as written: push the file of a
      single entry when present, and each present file of an array. */
  method PushEntry(fileArray: seq<File>, entry: Entry) returns (fileArray': seq<File>)
    ensures fileArray' == fileArray + EntryFiles(entry)
  {
    fileArray' := fileArray;
    match entry
    case Multiple(files) =>
      var j := 0;
      while j < |files|
        invariant 0 <= j <= |files|
        invariant fileArray' == fileArray + Present(files[..j])
      {
        PresentSnoc(files, j);
        if files[j].Some? {
          fileArray' := fileArray' + [files[j].value];
        }
        j := j + 1;
      }
      assert files[..j] == files;
    case Single(file) =>
      if file.Some? {
        fileArray' := fileArray' + [file.value];
      }
  }

  /** The flattening loop of `POST`. */
  method FlattenFiles(entries: seq<Entry>) returns (fileArray: seq<File>)
    ensures fileArray == Flatten(entries)
  {
    fileArray := [];
    var i := 0;
    while i < |entries|
      invariant 0 <= i <= |entries|
      invariant fileArray == Flatten(entries[..i])
    {
      fileArray := PushEntry(fileArray, entries[i]);
      FlattenSnoc(entries, i);
      i := i + 1;
    }
    assert entries[..i] == entries;
  }

  /** Number of present files in an entry, counted independently. */
  function PresentCount(entry: Entry): nat
  {
    match entry
    case Single(file) => if file.Some? then 1 else 0
    case Multiple(files) => |set k | 0 <= k < |files| && files[k].Some?|
  }

  function TotalPresent(entries: seq<Entry>): nat
  {
    if entries == [] then 0 else TotalPresent(entries[..|entries| - 1]) + PresentCount(entries[|entries| - 1])
  }

  lemma {:induction false} PresentLength(files: seq<Option<File>>)
    ensures |Present(files)| == |set k | 0 <= k < |files| && files[k].Some?|
  {
    if files != [] {
      var p := files[..|files| - 1];
      PresentLength(p);
      var before := set k | 0 <= k < |p| && p[k].Some?;
      var now := set k | 0 <= k < |files| && files[k].Some?;
      if files[|files| - 1].Some? {
        assert now == before + {|files| - 1};
      } else {
        assert now == before;
      }
    }
  }

  /** `fileArray` holds one element per present file: none is lost and none
      is added twice. */
  lemma {:induction false} FlattenLength(entries: seq<Entry>)
    ensures |Flatten(entries)| == TotalPresent(entries)
  {
    if entries != [] {
      var last := entries[|entries| - 1];
      FlattenLength(entries[..|entries| - 1]);
      if last.Multiple? {
        PresentLength(last.files);
      }
    }
  }

  /** A file is in `fileArray` exactly when some entry holds it, alone or in
      an array. */
  predicate Holds(entry: Entry, f: File)
  {
    match entry
    case Single(file) => file == Some(f)
    case Multiple(files) => Some(f) in files
  }

  lemma {:induction false} PresentMembers(files: seq<Option<File>>, f: File)
    ensures f in Present(files) <==> Some(f) in files
  {
    if files != [] {
      var p := files[..|files| - 1];
      PresentMembers(p, f);
      assert files == p + [files[|files| - 1]];
    }
  }

  lemma {:induction false} FlattenMembers(entries: seq<Entry>, f: File)
    ensures f in Flatten(entries) <==> exists i :: 0 <= i < |entries| && Holds(entries[i], f)
  {
    if entries != [] {
      var p, last := entries[..|entries| - 1], entries[|entries| - 1];
      FlattenMembers(p, f);
      if last.Multiple? { PresentMembers(last.files, f); }
      if exists i :: 0 <= i < |entries| && Holds(entries[i], f) {
        var i :| 0 <= i < |entries| && Holds(entries[i], f);
        if i < |p| { assert Holds(p[i], f); }
      }
      if exists i :: 0 <= i < |p| && Holds(p[i], f) {
        var i :| 0 <= i < |p| && Holds(p[i], f);
        assert Holds(entries[i], f);
      }
    }
  }

  // ---------------------------------------------------------------------------
  // Uploading

  /** `uploadFile`: read the file, then put it under its original name with
      its media type. `readFile` and `upload` stand for the file system and
      the S3 client. */
  function UploadFile(bucket: string, readFile: string -> Completion<seq<int>>,
                      upload: PutObjectRequest -> Completion<SendData>, file: File): Completion<SendData>
  {
    match readFile(file.filepath)
    case Threw => Threw
    case Returned(bytes) => upload(PutObjectRequest(bucket, file.originalFilename, bytes, file.mimetype))
  }

  /** `Promise.all` over the uploads: all results in order, or a failure. */
  function UploadAll(bucket: string, readFile: string -> Completion<seq<int>>,
                     upload: PutObjectRequest -> Completion<SendData>, files: seq<File>): Completion<seq<SendData>>
  {
    if files == [] then Returned([])
    else
      match (UploadFile(bucket, readFile, upload, files[0]), UploadAll(bucket, readFile, upload, files[1..]))
      case (Returned(r), Returned(rs)) => Returned([r] + rs)
      case _ => Threw
  }

  /** The response of `POST` for a parse outcome. */
  function Outcome(bucket: string, parsed: Completion<seq<Entry>>, readFile: string -> Completion<seq<int>>,
                   upload: PutObjectRequest -> Completion<SendData>): Response
  {
    match parsed
    case Threw => Response(500, Error(UploadError))
    case Returned(entries) =>
      match UploadAll(bucket, readFile, upload, Flatten(entries))
      case Threw => Response(500, Error(UploadError))
      case Returned(results) => Response(200, Files(results))
  }

  /** `POST`: parse, flatten, upload everything, answer. */
  method Post(bucket: string, parsed: Completion<seq<Entry>>, readFile: string -> Completion<seq<int>>,
              upload: PutObjectRequest -> Completion<SendData>) returns (response: Response)
    ensures response == Outcome(bucket, parsed, readFile, upload)
  {
    if parsed.Threw? {
      return Response(500, Error(UploadError));
    }
    var fileArray := FlattenFiles(parsed.value);
    var results := UploadAll(bucket, readFile, upload, fileArray);
    if results.Threw? {
      return Response(500, Error(UploadError));
    }
    return Response(200, Files(results.value));
  }

  lemma {:induction false} UploadAllShape(bucket: string, readFile: string -> Completion<seq<int>>,
                                          upload: PutObjectRequest -> Completion<SendData>, files: seq<File>)
    ensures UploadAll(bucket, readFile, upload, files).Returned? <==>
      forall i :: 0 <= i < |files| ==> UploadFile(bucket, readFile, upload, files[i]).Returned?
    ensures UploadAll(bucket, readFile, upload, files).Returned? ==>
      var rs := UploadAll(bucket, readFile, upload, files).value;
      |rs| == |files| && forall i :: 0 <= i < |files| ==> rs[i] == UploadFile(bucket, readFile, upload, files[i]).value
  {
    if files != [] {
      UploadAllShape(bucket, readFile, upload, files[1..]);
      if forall i :: 0 <= i < |files| ==> UploadFile(bucket, readFile, upload, files[i]).Returned? {
        forall i | 0 <= i < |files| - 1 ensures UploadFile(bucket, readFile, upload, files[1..][i]).Returned? {
          assert files[1..][i] == files[i + 1];
        }
      }
      if UploadAll(bucket, readFile, upload, files).Returned? {
        var rs := UploadAll(bucket, readFile, upload, files).value;
        forall i | 0 <= i < |files|
          ensures UploadFile(bucket, readFile, upload, files[i]).Returned?
          ensures rs[i] == UploadFile(bucket, readFile, upload, files[i]).value
        {
          if i > 0 { assert files[1..][i - 1] == files[i]; }
        }
      }
    }
  }

  /** All or nothing: 200 with one result per present file, in order, exactly
      when parsing and every read and upload succeed; otherwise 500 with the
      fixed message. Each upload puts the file under its original name with
      its media type. */
  lemma PostContract(bucket: string, parsed: Completion<seq<Entry>>, readFile: string -> Completion<seq<int>>,
                     upload: PutObjectRequest -> Completion<SendData>)
    ensures var r := Outcome(bucket, parsed, readFile, upload);
      && (r.status == 200 || r == Response(500, Error(UploadError)))
      && (r.status == 200 <==>
            && parsed.Returned?
            && forall i :: 0 <= i < |Flatten(parsed.value)| ==>
                 var f := Flatten(parsed.value)[i];
                 && readFile(f.filepath).Returned?
                 && upload(PutObjectRequest(bucket, f.originalFilename, readFile(f.filepath).value, f.mimetype)).Returned?)
      && (r.status == 200 ==>
            var files := Flatten(parsed.value);
            && r.body.Files? && |r.body.files| == |files| == TotalPresent(parsed.value)
            && forall i :: 0 <= i < |files| ==>
                 r.body.files[i] == upload(PutObjectRequest(bucket, files[i].originalFilename, readFile(files[i].filepath).value, files[i].mimetype)).value)
  {
    if parsed.Returned? {
      UploadAllShape(bucket, readFile, upload, Flatten(parsed.value));
      FlattenLength(parsed.value);
    }
  }
}
