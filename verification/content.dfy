/** The parts of an assistant message and `print_message_content`, which
    shows every part and collects the file identifiers of image and output
    file parts. */
module MessageContent {
  import opened Seqs

  type FileId = string

  /** One content part, by its declared type. `Unhandled` stands for any type
      tag other than "text", "image_file", "output_file" and "file_path";
      the remote service may add new ones. */
  datatype ContentPart =
    | Text(value: string)
    | ImageFile(fileId: FileId)
    | OutputFile(fileId: FileId)
    | FilePath(path: string)
    | Unhandled(kind: string)

  /** What is shown for one part. */
  datatype Shown =
    | ShownText(value: string)
    | ShownImage(fileId: FileId)
    | ShownOutputFile(fileId: FileId)
    | ShownSandboxPath(path: string)
    | ShownUnhandled(kind: string)

  /** The parts whose file is to be downloaded. */
  predicate CarriesFile(part: ContentPart) {
    part.ImageFile? || part.OutputFile?
  }

  /** The display of a part; exactly the file-carrying parts are displayed
      with a file identifier, and it is theirs. */
  function Show(part: ContentPart): (s: Shown)
    ensures CarriesFile(part) <==> s.ShownImage? || s.ShownOutputFile?
    ensures CarriesFile(part) ==> s.fileId == part.fileId
  {
    match part
    case Text(v) => ShownText(v)
    case ImageFile(id) => ShownImage(id)
    case OutputFile(id) => ShownOutputFile(id)
    case FilePath(p) => ShownSandboxPath(p)
    case Unhandled(k) => ShownUnhandled(k)
  }

  /** What is shown for each of `parts`, in part order. */
  function ShowParts(parts: seq<ContentPart>): (r: seq<Shown>)
    ensures |r| == |parts|
    ensures forall k :: 0 <= k < |parts| ==> r[k] == Show(parts[k])
  {
    seq(|parts|, k requires 0 <= k < |parts| => Show(parts[k]))
  }

  /** The identifiers collected from `parts`, in part order. */
  function FileIds(parts: seq<ContentPart>): (ids: seq<FileId>)
    ensures |ids| <= |parts|
    decreases |parts|
  {
    if parts == [] then []
    else (if CarriesFile(parts[0]) then [parts[0].fileId] else []) + FileIds(parts[1..])
  }

  /** The identifier list is exactly the identifiers of the file-carrying
      parts, in order: the m-th identifier belongs to the m-th such part. */
  lemma {:induction false} FileIdsOfFileParts(parts: seq<ContentPart>)
    ensures |FileIds(parts)| == |Filter(parts, CarriesFile)|
    ensures forall m :: 0 <= m < |FileIds(parts)| ==>
              CarriesFile(Filter(parts, CarriesFile)[m]) &&
              FileIds(parts)[m] == Filter(parts, CarriesFile)[m].fileId
    decreases |parts|
  {
    if parts != [] {
      FileIdsOfFileParts(parts[1..]);
    }
  }

  /** Text, sandbox-path and unhandled parts contribute nothing: dropping
      them leaves the identifier list unchanged. */
  lemma {:induction false} OtherPartsIgnored(parts: seq<ContentPart>)
    ensures FileIds(Filter(parts, CarriesFile)) == FileIds(parts)
    decreases |parts|
  {
    if parts != [] {
      OtherPartsIgnored(parts[1..]);
      var head := if CarriesFile(parts[0]) then [parts[0]] else [];
      FileIdsAppend(head, Filter(parts[1..], CarriesFile));
      if CarriesFile(parts[0]) {
        assert head[1..] == [];
      }
    }
  }

  lemma {:induction false} FileIdsAppend(a: seq<ContentPart>, b: seq<ContentPart>)
    ensures FileIds(a + b) == FileIds(a) + FileIds(b)
    decreases |a|
  {
    if a == [] {
      assert a + b == b;
    } else {
      var ab := a + b;
      assert ab[0] == a[0];
      assert ab[1..] == a[1..] + b;
      FileIdsAppend(a[1..], b);
      var h := if CarriesFile(a[0]) then [a[0].fileId] else [];
      assert FileIds(ab) == h + FileIds(ab[1..]);
      assert FileIds(a) == h + FileIds(a[1..]);
      ConcatAssoc(h, FileIds(a[1..]), FileIds(b));
    }
  }

  /** Every image and output-file identifier is collected, at the place
      its part holds among the file-carrying parts. */
  lemma FileIdsComplete(parts: seq<ContentPart>, k: nat) returns (m: nat)
    requires k < |parts| && CarriesFile(parts[k])
    ensures m < |FileIds(parts)| && FileIds(parts)[m] == parts[k].fileId
    ensures m < |Positions(parts, CarriesFile)| && Positions(parts, CarriesFile)[m] == k
  {
    FileIdsOfFileParts(parts);
    m := KeptAt(parts, CarriesFile, k);
  }

  /** `print_message_content` as written: show each part by its type and
      append the identifier of each image and output-file part. An
      unhandled type is shown and processing goes on. */
  method PrintMessageContent(parts: seq<ContentPart>) returns (ids: seq<FileId>, shown: seq<Shown>)
    ensures ids == FileIds(parts)
    ensures |shown| == |parts| && forall k :: 0 <= k < |parts| ==> shown[k] == Show(parts[k])
    ensures shown == ShowParts(parts)
  {
    ids := [];
    shown := [];
    var t := 0;
    while t < |parts|
      invariant 0 <= t <= |parts|
      invariant ids == FileIds(parts[..t])
      invariant |shown| == t && forall k :: 0 <= k < t ==> shown[k] == Show(parts[k])
    {
      var part := parts[t];
      assert parts[..t + 1] == parts[..t] + [part];
      FileIdsAppend(parts[..t], [part]);
      assert [part][1..] == [];
      t := t + 1;
      match part
      case Text(v) =>
        shown := shown + [ShownText(v)];
      case ImageFile(id) =>
        shown := shown + [ShownImage(id)];
        ids := ids + [id];
      case OutputFile(id) =>
        shown := shown + [ShownOutputFile(id)];
        ids := ids + [id];
      case FilePath(p) =>
        shown := shown + [ShownSandboxPath(p)];
      case Unhandled(kind) =>
        shown := shown + [ShownUnhandled(kind)];
    }
    assert parts[..t] == parts;
  }
}
