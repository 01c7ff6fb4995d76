/**
 * The upload plan of `uploadStream` and the manifest key check of
 * `checkManifest` (src/common/util.ts). Files over 100 MiB go up in 20 MiB
 * chunks: the first one alone, to obtain a task id, then the rest from a
 * queue. Hashing, form encoding and the HTTP requests are left out; the
 * server's replies are an input.
 */
module Upload {
  import opened Js

  const MAXSIZE: nat := 100 * 1024 * 1024
  const UNIT: nat := 20 * 1024 * 1024

  /** The bytes a read stream covers: `start` to `end` inclusive, or to the end of the file. */
  datatype ByteRange = ByteRange(start: nat, end: Option<nat>)

  /** The fields of an `UploadForm` that the plan decides. */
  datatype Chunk = Chunk(
    range: ByteRange,
    chunkIndex: nat,
    merge: bool,
    totalChunkNum: nat,
    parentFileSize: nat,
    taskId: Option<string>)

  /** `UploadFileResponse`. */
  datatype UploadReply = UploadReply(result: string, status: string)

  /** `Math.ceil(size / UNIT)`. */
  function ChunkCount(size: nat): nat
  {
    (size + UNIT - 1) / UNIT
  }

  /** `_uploadFirstChunk`: bytes `[0, UNIT - 1]`, index 1, no task id yet. */
  function FirstChunk(size: nat): Chunk
  {
    Chunk(ByteRange(0, Some(UNIT - 1)), 1, false, ChunkCount(size), size, None)
  }

  /** The form the loop builds for 0-based chunk `i >= 1`; the last one reads to the end and asks for the merge. */
  function LaterChunk(size: nat, i: nat, taskId: string): Chunk
  {
    if i == ChunkCount(size) - 1 then Chunk(ByteRange(i * UNIT, None), i + 1, true, ChunkCount(size), size, Some(taskId))
    else Chunk(ByteRange(i * UNIT, Some((i + 1) * UNIT - 1)), i + 1, false, ChunkCount(size), size, Some(taskId))
  }

  /** `normalFileUpload`: the whole file as chunk 1 of 1, with `parentFileSize` fixed at 10. */
  function WholeFile(): Chunk
  {
    Chunk(ByteRange(0, None), 1, true, 1, 10, None)
  }

  /** Every form `uploadStream` sends, in send order, given the task id of the first reply. */
  function Plan(size: nat, taskId: string): (p: seq<Chunk>)
    ensures |p| >= 1
    ensures size > MAXSIZE ==> |p| == ChunkCount(size)
    ensures forall k :: 0 <= k < |p| ==>
      p[k].chunkIndex == k + 1 && p[k].totalChunkNum == |p| &&
      p[k].taskId == (if k == 0 then None else Some(taskId))
  {
    if size > MAXSIZE then
      [FirstChunk(size)] + seq(ChunkCount(size) - 1, k requires 0 <= k < ChunkCount(size) - 1 => LaterChunk(size, k + 1, taskId))
    else [WholeFile()]
  }

  /** `${publisher.toLowerCase()}.${name}-${version}.carts`. */
  function UploadFileName(publisher: string, name: string, version: string): (r: string)
    ensures StartsWith(r, ToLower(publisher)) && EndsWith(r, ".carts")
  {
    ToLower(publisher) + "." + name + "-" + version + ".carts"
  }

  /**
   * `uploadStream` from the file size on: the forms sent and the reply it
   * resolves with. `replies[k]` is the server's answer to the k-th request;
   * `completed` lists the progress values rendered.
   */
  method UploadStream(size: nat, replies: seq<UploadReply>) returns (sent: seq<Chunk>, completed: seq<nat>, result: UploadReply)
    requires |replies| >= 1 && |replies| == |Plan(size, replies[0].result)|
    ensures sent == Plan(size, replies[0].result)
    ensures result == replies[|replies| - 1]
    ensures size > MAXSIZE ==> |completed| == ChunkCount(size) && forall k :: 0 <= k < |completed| ==> completed[k] == k + 1
  {
    if size <= MAXSIZE {
      sent := [WholeFile()];
      completed := [];
      result := replies[0];
      return;
    }
    var count := ChunkCount(size);
    var firstRes := replies[0];
    sent := [FirstChunk(size)];
    completed := [1];
    var taskId := firstRes.result;
    var requests: seq<Chunk> := [];
    for i := 1 to count
      invariant |requests| == i - 1
      invariant forall k :: 0 <= k < i - 1 ==> requests[k] == LaterChunk(size, k + 1, taskId)
    {
      var form := Chunk(ByteRange(i * UNIT, Some((i + 1) * UNIT - 1)), i + 1, false, count, size, Some(taskId));
      if i == count - 1 {
        form := form.(range := ByteRange(i * UNIT, None), merge := true);
      }
      requests := requests + [form];
    }
    var responses: seq<UploadReply> := [];
    var progress := 2;
    ghost var queued := requests;
    while |requests| > 0
      invariant |responses| + |requests| == count - 1
      invariant progress == |responses| + 2
      invariant requests == queued[|responses|..]
      invariant sent == [FirstChunk(size)] + queued[..|responses|]
      invariant responses == replies[1..|responses| + 1]
      invariant |completed| == progress - 1 && forall k :: 0 <= k < |completed| ==> completed[k] == k + 1
    {
      var cb := requests[0];
      requests := requests[1..];
      sent := sent + [cb];
      var reply := replies[|responses| + 1];
      completed := completed + [progress];
      progress := progress + 1;
      responses := responses + [reply];
    }
    assert queued[..|responses|] == queued;
    result := responses[|responses| - 1];
  }

  /** `REQUIRED_KEYS` of `checkManifest`. */
  const RequiredKeys: seq<string> := ["name", "version", "publisher", "engines", "activationEvents", "main"]

  /** `!manifest[key]`: the key is absent or its value is falsy. */
  predicate Missing(manifest: map<string, Json>, key: string)
  {
    key !in manifest || !Truthy(manifest[key])
  }

  /**
   * `checkManifest`: true when every required key holds a truthy value;
   * otherwise false, naming (in the error it prints) the first key that does not.
   */
  method CheckManifest(manifest: map<string, Json>) returns (ok: bool, reported: Option<string>)
    ensures ok <==> forall k :: 0 <= k < |RequiredKeys| ==> !Missing(manifest, RequiredKeys[k])
    ensures ok <==> reported.None?
    ensures reported.Some? ==>
      exists k :: 0 <= k < |RequiredKeys| && reported.value == RequiredKeys[k] && Missing(manifest, RequiredKeys[k]) &&
        forall j :: 0 <= j < k ==> !Missing(manifest, RequiredKeys[j])
  {
    var i := 0;
    while i < |RequiredKeys|
      invariant 0 <= i <= |RequiredKeys|
      invariant forall j :: 0 <= j < i ==> !Missing(manifest, RequiredKeys[j])
    {
      var key := RequiredKeys[i];
      if Missing(manifest, key) {
        return false, Some(key);
      }
      i := i + 1;
    }
    return true, None;
  }
}

/** Coverage and ordering of the upload plan. */
module UploadProps {
  import opened Js
  import opened Upload

  /** `ChunkCount` is the ceiling: the chunks hold the file with less than one chunk to spare. */
  lemma CeilBounds(size: nat)
    requires size > 0
    ensures (ChunkCount(size) - 1) * UNIT < size <= ChunkCount(size) * UNIT
  {
    var c := ChunkCount(size);
    var m := (size + UNIT - 1) % UNIT;
    assert size + UNIT - 1 == c * UNIT + m;
  }

  /** A file over 100 MiB needs more than five chunks. */
  lemma LargeFileChunks(size: nat)
    requires size > MAXSIZE
    ensures ChunkCount(size) >= 6
  {
    CeilBounds(size);
  }

  /** Chunk `k` of the plan is sent as `chunkIndex` k + 1 of `totalChunkNum` chunks. */
  lemma PlanIndices(size: nat, taskId: string, k: nat)
    requires k < |Plan(size, taskId)|
    ensures Plan(size, taskId)[k].chunkIndex == k + 1
    ensures Plan(size, taskId)[k].totalChunkNum == |Plan(size, taskId)|
    ensures size > MAXSIZE ==> |Plan(size, taskId)| == ChunkCount(size)
  {
    if size > MAXSIZE { LargeFileChunks(size); }
  }

  /** Only the last chunk asks the server to merge. */
  lemma PlanMergeLast(size: nat, taskId: string, k: nat)
    requires k < |Plan(size, taskId)|
    ensures Plan(size, taskId)[k].merge <==> k == |Plan(size, taskId)| - 1
  {
    if size > MAXSIZE { LargeFileChunks(size); }
  }

  /** Every chunk after the first carries the first reply's task id; the first carries none. */
  lemma PlanTaskId(size: nat, taskId: string, k: nat)
    requires k < |Plan(size, taskId)|
    ensures Plan(size, taskId)[k].taskId == if k == 0 then None else Some(taskId)
  {
  }

  /**
   * For a file over 100 MiB the chunks tile `[0, size)`: the first starts at
   * 0, each ends just before the next starts, and the last one, which reads to
   * the end of the file, starts before `size`.
   */
  lemma PlanCovers(size: nat, taskId: string)
    requires size > MAXSIZE
    ensures var p := Plan(size, taskId);
      p[0].range.start == 0 &&
      (forall k :: 0 <= k < |p| - 1 ==> p[k].range.end == Some(p[k + 1].range.start - 1)) &&
      (forall k :: 0 <= k < |p| ==> p[k].range.start == k * UNIT) &&
      p[|p| - 1].range.end.None? && p[|p| - 1].range.start < size
  {
    var p := Plan(size, taskId);
    LargeFileChunks(size);
    CeilBounds(size);
    forall k | 0 <= k < |p| - 1 ensures p[k].range.end == Some(p[k + 1].range.start - 1) {
      assert p[k + 1] == LaterChunk(size, k + 1, taskId);
      if k > 0 { assert p[k] == LaterChunk(size, k, taskId); }
    }
  }

  /** Each chunk but the last holds exactly `UNIT` bytes. */
  lemma PlanChunkSize(size: nat, taskId: string, k: nat)
    requires size > MAXSIZE && k < |Plan(size, taskId)| - 1
    ensures var r := Plan(size, taskId)[k].range; r.end.Some? && r.end.value - r.start + 1 == UNIT
  {
    LargeFileChunks(size);
    var c := Plan(size, taskId)[k];
    if k == 0 {
      assert c == FirstChunk(size);
    } else {
      assert c == LaterChunk(size, k, taskId);
      assert k != ChunkCount(size) - 1;
      assert c.range == ByteRange(k * UNIT, Some((k + 1) * UNIT - 1));
    }
  }

  /** A file of at most 100 MiB goes up whole, in one request. */
  lemma SmallFilePlan(size: nat, taskId: string)
    requires size <= MAXSIZE
    ensures Plan(size, taskId) == [Chunk(ByteRange(0, None), 1, true, 1, 10, None)]
  {
  }

  /** A 101 MiB file goes up in six chunks, the last one holding the final 1 MiB. */
  lemma PlanExample()
    ensures |Plan(101 * 1024 * 1024, "t")| == 6
    ensures Plan(101 * 1024 * 1024, "t")[5].range == ByteRange(100 * 1024 * 1024, None)
  {
    assert ChunkCount(101 * 1024 * 1024) == 6;
  }
}
