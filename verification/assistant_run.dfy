/** `run_assistant_and_get_outputs` and `download_file` of the assistant
    script, once the remote service is abstracted: the run's final status
    and the listed messages are inputs, and the Files API is a record of
    three outcomes per call (metadata, content, local save). */
module AssistantRun {
  import opened Wrappers
  import opened Seqs
  import opened MessageContent

  /** The only status after which messages are read. */
  const Completed: string := "completed"

  /** The role whose messages are shown and harvested for files. */
  const AssistantRole: string := "assistant"

  /** The extension of the fallback file name. */
  const FallbackExtension: string := ".bin"

  type Bytes = seq<bv8>

  datatype Message = Message(role: string, content: seq<ContentPart>)

  /** File metadata as far as it matters here: the remote file name, which
      may be absent. */
  datatype FileMeta = FileMeta(filename: Option<string>)

  /** The Files API and the local disk, as the outcome of each call. */
  datatype FilesApi = FilesApi(
    retrieve: FileId -> Result<FileMeta, string>,
    content: FileId -> Result<Bytes, string>,
    save: (string, Bytes) -> Outcome<string>)

  /** The result of one download attempt: the file saved under a name, or
      the error reported for that identifier. */
  datatype Download =
    | Saved(fileId: FileId, name: string)
    | Failed(fileId: FileId, reason: string)

  datatype RunReport =
    | EndedWithStatus(status: string)
    | Finished(collected: seq<FileId>, shown: seq<Shown>, attempts: seq<Download>)

  predicate FromAssistant(m: Message) {
    m.role == AssistantRole
  }

  /** A name is usable when present and non-empty (Python truthiness). */
  predicate Truthy(name: Option<string>) {
    name.Some? && name.value != []
  }

  /** `fmeta.filename or f"{file_id}.bin"`. */
  function SavedName(fileId: FileId, filename: Option<string>): (name: string)
    ensures name != []
    ensures filename.Some? && name == filename.value <==> Truthy(filename)
    ensures !Truthy(filename) ==>
              |name| == |fileId| + |FallbackExtension| &&
              name[..|fileId|] == fileId && name[|fileId|..] == FallbackExtension
  {
    if Truthy(filename) then filename.value else fileId + FallbackExtension
  }

  /** `download_file`, with its exception surfacing as `Failed`: fetch the
      metadata, pick the name, fetch the content, save it. */
  function DownloadFile(fileId: FileId, api: FilesApi): (d: Download)
    ensures d.fileId == fileId
    ensures d.Saved? <==>
              && api.retrieve(fileId).Success?
              && api.content(fileId).Success?
              && api.save(SavedName(fileId, api.retrieve(fileId).value.filename), api.content(fileId).value).Pass?
    ensures d.Saved? ==> d.name == SavedName(fileId, api.retrieve(fileId).value.filename)
  {
    match api.retrieve(fileId)
    case Failure(e) => Failed(fileId, e)
    case Success(meta) =>
      var name := SavedName(fileId, meta.filename);
      match api.content(fileId)
      case Failure(e) => Failed(fileId, e)
      case Success(bytes) =>
        match api.save(name, bytes)
        case Fail(e) => Failed(fileId, e)
        case Pass => Saved(fileId, name)
  }

  /** The identifiers collected from the assistant messages, message by
      message in listing order. */
  function CollectFileIds(msgs: seq<Message>): (ids: seq<FileId>)
    ensures |ids| <= |ShownMessages(msgs)|
    decreases |msgs|
  {
    if msgs == [] then []
    else (if FromAssistant(msgs[0]) then FileIds(msgs[0].content) else []) + CollectFileIds(msgs[1..])
  }

  lemma {:induction false} CollectAppend(a: seq<Message>, b: seq<Message>)
    ensures CollectFileIds(a + b) == CollectFileIds(a) + CollectFileIds(b)
    decreases |a|
  {
    if a == [] {
      assert a + b == b;
    } else {
      var ab := a + b;
      assert ab[0] == a[0];
      assert ab[1..] == a[1..] + b;
      CollectAppend(a[1..], b);
      var h := if FromAssistant(a[0]) then FileIds(a[0].content) else [];
      assert CollectFileIds(ab) == h + CollectFileIds(ab[1..]);
      assert CollectFileIds(a) == h + CollectFileIds(a[1..]);
      ConcatAssoc(h, CollectFileIds(a[1..]), CollectFileIds(b));
    }
  }

  /** Every image and output-file identifier of an assistant message is
      collected. */
  lemma {:induction false} CollectComplete(msgs: seq<Message>, k: nat, j: nat)
    requires k < |msgs| && FromAssistant(msgs[k])
    requires j < |msgs[k].content| && CarriesFile(msgs[k].content[j])
    ensures msgs[k].content[j].fileId in CollectFileIds(msgs)
    decreases k
  {
    assert msgs == [msgs[0]] + msgs[1..];
    CollectAppend([msgs[0]], msgs[1..]);
    assert [msgs[0]][1..] == [];
    if k == 0 {
      var m := FileIdsComplete(msgs[0].content, j);
      assert CollectFileIds([msgs[0]]) == FileIds(msgs[0].content) + [];
    } else {
      assert msgs[1..][k - 1] == msgs[k];
      CollectComplete(msgs[1..], k - 1, j);
    }
  }

  /** The parts shown, message by message in listing order: those of the
      assistant messages only. */
  function ShownMessages(msgs: seq<Message>): (shown: seq<Shown>)
    ensures (forall m :: 0 <= m < |msgs| ==> !FromAssistant(msgs[m])) ==> shown == []
    decreases |msgs|
  {
    if msgs == [] then []
    else (if FromAssistant(msgs[0]) then ShowParts(msgs[0].content) else []) + ShownMessages(msgs[1..])
  }

  lemma {:induction false} ShownAppend(a: seq<Message>, b: seq<Message>)
    ensures ShownMessages(a + b) == ShownMessages(a) + ShownMessages(b)
    decreases |a|
  {
    if a == [] {
      assert a + b == b;
    } else {
      var ab := a + b;
      assert ab[0] == a[0];
      assert ab[1..] == a[1..] + b;
      ShownAppend(a[1..], b);
      var h := if FromAssistant(a[0]) then ShowParts(a[0].content) else [];
      assert ShownMessages(ab) == h + ShownMessages(ab[1..]);
      assert ShownMessages(a) == h + ShownMessages(a[1..]);
      ConcatAssoc(h, ShownMessages(a[1..]), ShownMessages(b));
    }
  }

  /** Only assistant messages contribute: dropping every other message
      leaves the collected identifiers unchanged. */
  lemma {:induction false} OnlyAssistantContributes(msgs: seq<Message>)
    ensures CollectFileIds(Filter(msgs, FromAssistant)) == CollectFileIds(msgs)
    decreases |msgs|
  {
    if msgs != [] {
      OnlyAssistantContributes(msgs[1..]);
      var head := if FromAssistant(msgs[0]) then [msgs[0]] else [];
      CollectAppend(head, Filter(msgs[1..], FromAssistant));
      if FromAssistant(msgs[0]) {
        assert head[1..] == [];
      }
    }
  }

  /** Only assistant messages are shown: dropping every other message
      leaves the shown parts unchanged. */
  lemma {:induction false} OnlyAssistantShown(msgs: seq<Message>)
    ensures ShownMessages(Filter(msgs, FromAssistant)) == ShownMessages(msgs)
    decreases |msgs|
  {
    if msgs != [] {
      OnlyAssistantShown(msgs[1..]);
      var head := if FromAssistant(msgs[0]) then [msgs[0]] else [];
      ShownAppend(head, Filter(msgs[1..], FromAssistant));
      if FromAssistant(msgs[0]) {
        assert head[1..] == [];
      }
    }
  }

  /** An identifier is collected only from an assistant message that names
      it in an image or output-file part. */
  lemma {:induction false} CollectedFromAssistant(msgs: seq<Message>, id: FileId) returns (k: nat)
    requires id in CollectFileIds(msgs)
    ensures k < |msgs| && FromAssistant(msgs[k]) && id in FileIds(msgs[k].content)
    decreases |msgs|
  {
    var head := if FromAssistant(msgs[0]) then FileIds(msgs[0].content) else [];
    assert CollectFileIds(msgs) == head + CollectFileIds(msgs[1..]);
    if id in head {
      k := 0;
    } else {
      assert id in CollectFileIds(msgs[1..]);
      var k' := CollectedFromAssistant(msgs[1..], id);
      k := k' + 1;
    }
  }

  function AttemptedIds(attempts: seq<Download>): (ids: seq<FileId>)
    ensures |ids| == |attempts|
    ensures forall k :: 0 <= k < |attempts| ==> ids[k] == attempts[k].fileId
  {
    seq(|attempts|, k requires 0 <= k < |attempts| => attempts[k].fileId)
  }

  /** Each recorded outcome is what downloading its identifier yields. */
  predicate Faithful(attempts: seq<Download>, api: FilesApi) {
    forall k :: 0 <= k < |attempts| ==> attempts[k] == DownloadFile(attempts[k].fileId, api)
  }

  /** The download loop over `set(all_file_ids)`. The set's iteration order
      is not specified, so each step picks any identifier not yet tried.
      Every distinct identifier is attempted exactly once, whatever earlier
      attempts returned. */
  method DownloadAll(ids: seq<FileId>, api: FilesApi) returns (attempts: seq<Download>)
    ensures Distinct(AttemptedIds(attempts))
    ensures Elements(AttemptedIds(attempts)) == Elements(ids)
    ensures |attempts| == |Elements(ids)|
    ensures Faithful(attempts, api)
  {
    var pending := Elements(ids);
    attempts := [];
    ghost var tried: seq<FileId> := [];
    while pending != {}
      invariant tried == AttemptedIds(attempts)
      invariant Partitioned(pending, tried, ids)
      invariant Faithful(attempts, api)
      decreases pending
    {
      var fid :| fid in pending;
      var d := DownloadFile(fid, api);
      PartitionStep(pending, tried, ids, fid);
      FaithfulAppend(attempts, d, api);
      attempts := attempts + [d];
      tried := tried + [fid];
      pending := pending - {fid};
    }
    DistinctCardinality(tried);
  }

  /** The loop's split of the distinct identifiers: those still pending and
      those tried, each tried once. */
  predicate Partitioned(pending: set<FileId>, tried: seq<FileId>, ids: seq<FileId>) {
    && pending !! Elements(tried)
    && pending + Elements(tried) == Elements(ids)
    && Distinct(tried)
  }

  lemma PartitionStep(pending: set<FileId>, tried: seq<FileId>, ids: seq<FileId>, fid: FileId)
    requires Partitioned(pending, tried, ids) && fid in pending
    ensures Partitioned(pending - {fid}, tried + [fid], ids)
  {
    DistinctAppend(tried, fid);
    ElementsAppend(tried, fid);
  }

  lemma FaithfulAppend(attempts: seq<Download>, d: Download, api: FilesApi)
    requires Faithful(attempts, api) && d == DownloadFile(d.fileId, api)
    ensures Faithful(attempts + [d], api)
    ensures AttemptedIds(attempts + [d]) == AttemptedIds(attempts) + [d.fileId]
  {
    assert forall k :: 0 <= k < |attempts| ==> (attempts + [d])[k] == attempts[k];
  }

  /** One more message extends the collected identifiers and the shown
      parts by its own exactly when it is from the assistant. */
  lemma HarvestStep(msgs: seq<Message>, t: nat)
    requires t < |msgs|
    ensures CollectFileIds(msgs[..t + 1])
         == CollectFileIds(msgs[..t]) + (if FromAssistant(msgs[t]) then FileIds(msgs[t].content) else [])
    ensures ShownMessages(msgs[..t + 1])
         == ShownMessages(msgs[..t]) + (if FromAssistant(msgs[t]) then ShowParts(msgs[t].content) else [])
  {
    var m := msgs[t];
    assert msgs[..t + 1] == msgs[..t] + [m];
    CollectAppend(msgs[..t], [m]);
    ShownAppend(msgs[..t], [m]);
    assert [m][1..] == [];
  }

  /** `run_assistant_and_get_outputs` after the run has been polled to a
      final `status` and the newest messages `msgs` listed: stop unless the
      run completed; otherwise show and harvest each assistant message,
      then try each distinct identifier once. */
  method RunAssistant(status: string, msgs: seq<Message>, api: FilesApi) returns (report: RunReport)
    ensures report.EndedWithStatus? <==> status != Completed
    ensures report.EndedWithStatus? ==> report.status == status
    ensures report.Finished? ==> report.collected == CollectFileIds(msgs)
    ensures report.Finished? ==> report.shown == ShownMessages(msgs)
    ensures report.Finished? ==> Distinct(AttemptedIds(report.attempts))
    ensures report.Finished? ==> Elements(AttemptedIds(report.attempts)) == Elements(report.collected)
    ensures report.Finished? ==> Faithful(report.attempts, api)
  {
    if status != Completed {
      return EndedWithStatus(status);
    }
    var all: seq<FileId> := [];
    var shown: seq<Shown> := [];
    var t := 0;
    while t < |msgs|
      invariant 0 <= t <= |msgs|
      invariant all == CollectFileIds(msgs[..t])
      invariant shown == ShownMessages(msgs[..t])
    {
      var m := msgs[t];
      HarvestStep(msgs, t);
      if m.role == AssistantRole {
        var ids, partsShown := PrintMessageContent(m.content);
        all := all + ids;
        shown := shown + partsShown;
      }
      t := t + 1;
    }
    assert msgs[..t] == msgs;
    var attempts := DownloadAll(all, api);
    return Finished(all, shown, attempts);
  }
}
