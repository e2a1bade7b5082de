/**
 * The multipart upload of one file: the slices that are sent, the etags that are collected and the progress that is
 * reported.
 */
module Multipart {
  import opened Sequences

  const MAX_PART_SIZE: int := 8 * 1024 * 1024

  type File = seq<bv8>

  /** What the server answers to one part; `ok` is the HTTP status test. */
  datatype Answer = Answer(ok: bool, receivedBytes: int, partNumber: int, etag: string)

  datatype Phase = Initiating | Uploading | Completing | Done | Error

  datatype Progress = Progress(uploadedBytes: int, totalBytes: int, partsDone: int, partsTotal: int, phase: Phase)

  /** How the upload ends: completed, cancelled, refused by the server, with a size that does not match, or by an
      exception of a request itself, which is not reported. */
  datatype Ending =
    | Completed | Cancelled | PartFailed | SizeMismatch | CompleteFailed
    | InitiateThrew | PartThrew | CompleteThrew

  function PartSize(requested: int): (size: int)
    ensures 0 < size <= MAX_PART_SIZE
  {
    var wanted := if requested > 0 then requested else MAX_PART_SIZE;
    if wanted < MAX_PART_SIZE then wanted else MAX_PART_SIZE
  }

  /** A positive size up to 8 MiB is taken as it is; any other becomes 8 MiB. */
  lemma PartSizeIs(requested: int)
    ensures 1 <= requested <= 8 * 1024 * 1024 ==> PartSize(requested) == requested
    ensures requested <= 0 || requested > 8 * 1024 * 1024 ==> PartSize(requested) == 8 * 1024 * 1024
  {
  }

  /** `Math.ceil(a / b)`: how often `b` is needed to cover `a`. */
  function CeilDiv(a: int, b: int): nat
    requires b > 0
  {
    if a <= 0 then 0 else 1 + CeilDiv(a - b, b)
  }

  function PartsTotal(size: nat, partSize: int): (n: nat)
    requires partSize > 0
    ensures n >= 1
  {
    var n := CeilDiv(size, partSize);
    if n > 1 then n else 1
  }

  /** Where part `index` starts: `index * partSize`. */
  function Offset(index: nat, partSize: int): int
    requires partSize > 0
  {
    if index == 0 then 0 else Offset(index - 1, partSize) + partSize
  }

  lemma {:induction false} OffsetIsProduct(index: nat, partSize: int)
    requires partSize > 0
    ensures Offset(index, partSize) == index * partSize >= 0
  {
    if index > 0 {
      OffsetIsProduct(index - 1, partSize);
      assert index * partSize == (index - 1) * partSize + partSize;
    }
  }

  function Clip(file: File, position: int): nat
  {
    if position < 0 then 0 else if position < |file| then position else |file|
  }

  /** `file.slice(start, end)` for `start <= end`, which clips at the end of the file. */
  function Slice(file: File, start: int, end: int): File
    requires start <= end
  {
    file[Clip(file, start)..Clip(file, end)]
  }

  function Body(file: File, index: nat, partSize: int): File
    requires partSize > 0
  {
    Slice(file, Offset(index, partSize), Offset(index, partSize) + partSize)
  }

  function Joined(bodies: seq<File>): File {
    if bodies == [] then [] else Joined(bodies[..|bodies| - 1]) + bodies[|bodies| - 1]
  }

  function Bodies(file: File, partSize: int, n: nat): seq<File>
    requires partSize > 0
  {
    seq(n, i requires 0 <= i < n => Body(file, i, partSize))
  }

  /** What the outside decides: whether the initiating request succeeds, the server's answer to each part, the abort
      signal, and the status test of the completion. `None` is a request that throws, or an answer that cannot be
      read. */
  datatype Outside = Outside(initiates: bool, server: (int, File) -> Option<Answer>, aborted: nat -> bool,
                             completes: Option<bool>)

  datatype PartResult = PartDone(part: (int, string)) | PartStopped(ending: Ending)

  /** The fate of one part. */
  function PartOutcome(file: File, partSize: int, index: nat, outside: Outside): (r: PartResult)
    requires partSize > 0
    ensures r.PartStopped? ==> r.ending in {Cancelled, PartThrew, PartFailed, SizeMismatch}
  {
    var body := Body(file, index, partSize);
    var answer := outside.server(index + 1, body);
    if outside.aborted(index) then PartStopped(Cancelled)
    else if answer.None? then PartStopped(PartThrew)
    else if !answer.value.ok then PartStopped(PartFailed)
    else if answer.value.receivedBytes != |body| then PartStopped(SizeMismatch)
    else PartDone((answer.value.partNumber, answer.value.etag))
  }

  /** A part is done exactly when nobody cancelled and the server confirmed as many bytes as were sent; those are the
      file's bytes from `index * partSize` on, at most `partSize` of them. */
  method UploadPart(file: File, partSize: int, index: nat, outside: Outside) returns (r: PartResult, blob: File)
    requires partSize > 0
    ensures r == PartOutcome(file, partSize, index, outside)
    ensures r == PartStopped(Cancelled) <==> outside.aborted(index)
    ensures r != PartStopped(Cancelled) ==>
      && blob == Body(file, index, partSize)
      && var start := index * partSize;
        && |blob| == (if start >= |file| then 0 else if start + partSize <= |file| then partSize else |file| - start)
        && forall i :: 0 <= i < |blob| && 0 <= start + i < |file| ==> blob[i] == file[start + i]
    ensures r.PartDone? <==> !outside.aborted(index) && Confirmed(outside.server(index + 1, blob), |blob|)
    ensures r.PartDone? ==> var answer := outside.server(index + 1, blob).value;
      r.part == (answer.partNumber, answer.etag)
  {
    if outside.aborted(index) {
      return PartStopped(Cancelled), [];
    }
    OffsetIsProduct(index, partSize);
    var start := index * partSize;
    blob := Slice(file, start, start + partSize);
    var response := outside.server(index + 1, blob);
    if response.None? {
      return PartStopped(PartThrew), blob;
    }
    if !response.value.ok {
      return PartStopped(PartFailed), blob;
    }
    if response.value.receivedBytes != |blob| {
      return PartStopped(SizeMismatch), blob;
    }
    r := PartDone((response.value.partNumber, response.value.etag));
  }

  predicate Confirmed(answer: Option<Answer>, size: nat) {
    answer.Some? && answer.value.ok && answer.value.receivedBytes == size
  }

  /** How many parts go through before one stops the upload, among those from `index` on. */
  function Through(file: File, partSize: int, index: nat, total: nat, outside: Outside): nat
    requires partSize > 0 && index <= total
    decreases total - index
  {
    if index == total || PartOutcome(file, partSize, index, outside).PartStopped? then index
    else Through(file, partSize, index + 1, total, outside)
  }

  function EndingAfter(file: File, partSize: int, done: nat, total: nat, outside: Outside): Ending
    requires partSize > 0
  {
    if !outside.initiates then InitiateThrew
    else if done >= total then
      match outside.completes
      case None => CompleteThrew
      case Some(ok) => if ok then Completed else CompleteFailed
    else
      match PartOutcome(file, partSize, done, outside)
      case PartStopped(ending) => ending
      case PartDone(_) => Completed
  }

  /** The parts that go through: none without a successful initiation. */
  function DoneParts(file: File, partSize: int, outside: Outside): nat
    requires partSize > 0
  {
    if outside.initiates then Through(file, partSize, 0, PartsTotal(|file|, partSize), outside) else 0
  }

  /** A part that fails once it was sent counts among the bodies sent. */
  function SentParts(done: nat, ending: Ending): nat {
    if ending == PartFailed || ending == SizeMismatch || ending == PartThrew then done + 1 else done
  }

  /** Part by part what the server answered. */
  ghost predicate Etags(file: File, partSize: int, outside: Outside, partEtags: seq<(int, string)>)
    requires partSize > 0
  {
    forall k :: 0 <= k < |partEtags| ==> PartOutcome(file, partSize, k, outside) == PartDone(partEtags[k])
  }

  lemma EtagsStep(file: File, partSize: int, outside: Outside, partEtags: seq<(int, string)>, next: (int, string))
    requires partSize > 0 && Etags(file, partSize, outside, partEtags)
    requires PartOutcome(file, partSize, |partEtags|, outside) == PartDone(next)
    ensures Etags(file, partSize, outside, partEtags + [next])
  {
  }

  /** What was sent, counted and reported when `k` parts are done. */
  ghost predicate Progressed(file: File, partSize: int, k: nat, sent: seq<File>, uploadedBytes: int,
                             reports: seq<Progress>)
    requires partSize > 0
  {
    && sent == Bodies(file, partSize, k)
    && uploadedBytes == |Joined(Bodies(file, partSize, k))|
    && reports == PartReports(file, partSize, k)
  }

  lemma ProgressStep(file: File, partSize: int, k: nat, sent: seq<File>, uploadedBytes: int, reports: seq<Progress>)
    requires partSize > 0 && Progressed(file, partSize, k, sent, uploadedBytes, reports)
    ensures var body := Body(file, k, partSize);
      var bytes := uploadedBytes + |body|;
      && sent + [body] == Bodies(file, partSize, k + 1)
      && Progressed(file, partSize, k + 1, sent + [body], bytes,
                    reports + [Progress(bytes, |file|, k + 1, PartsTotal(|file|, partSize), Uploading)])
  {
    var body := Body(file, k, partSize);
    assert Bodies(file, partSize, k + 1) == Bodies(file, partSize, k) + [body];
    JoinedStep(file, partSize, k);
  }

  /** The parts before `index` went through. */
  ghost predicate Reaches(file: File, partSize: int, index: nat, outside: Outside)
    requires partSize > 0
  {
    var n := PartsTotal(|file|, partSize);
    index <= n && Through(file, partSize, 0, n, outside) == Through(file, partSize, index, n, outside)
  }

  lemma ReachesNext(file: File, partSize: int, index: nat, outside: Outside)
    requires partSize > 0 && Reaches(file, partSize, index, outside) && index < PartsTotal(|file|, partSize)
    requires PartOutcome(file, partSize, index, outside).PartDone?
    ensures Reaches(file, partSize, index + 1, outside)
  {
  }

  /** What an upload that ends so leaves behind: the bodies sent, the server's answer to each part done, and the
      reports. */
  ghost predicate Leaves(file: File, partSize: int, outside: Outside, ending: Ending, sent: seq<File>,
                         partEtags: seq<(int, string)>, reports: seq<Progress>)
    requires partSize > 0
  {
    var done := DoneParts(file, partSize, outside);
    && ending == EndingAfter(file, partSize, done, PartsTotal(|file|, partSize), outside)
    && sent == Bodies(file, partSize, SentParts(done, ending))
    && |partEtags| == done && Etags(file, partSize, outside, partEtags)
    && reports == Reports(file, partSize, done, ending)
  }

  lemma LeavesWhenStopped(file: File, partSize: int, k: nat, outside: Outside, sent: seq<File>, uploadedBytes: int,
                          partEtags: seq<(int, string)>, reports: seq<Progress>)
    requires partSize > 0 && outside.initiates
    requires Reaches(file, partSize, k, outside) && k < PartsTotal(|file|, partSize)
    requires Progressed(file, partSize, k, sent, uploadedBytes, reports)
    requires |partEtags| == k && Etags(file, partSize, outside, partEtags)
    requires PartOutcome(file, partSize, k, outside).PartStopped?
    ensures var ending := PartOutcome(file, partSize, k, outside).ending;
      var error := Progress(uploadedBytes, |file|, k, PartsTotal(|file|, partSize), Error);
      Leaves(file, partSize, outside, ending,
             if ending == Cancelled then sent else sent + [Body(file, k, partSize)], partEtags,
             if ending == Cancelled || ending == PartThrew then reports else reports + [error])
  {
    ProgressStep(file, partSize, k, sent, uploadedBytes, reports);
  }

  lemma LeavesWhenThrough(file: File, partSize: int, outside: Outside, sent: seq<File>, uploadedBytes: int,
                          partEtags: seq<(int, string)>, reports: seq<Progress>)
    requires partSize > 0 && outside.initiates
    requires Reaches(file, partSize, PartsTotal(|file|, partSize), outside)
    requires Progressed(file, partSize, PartsTotal(|file|, partSize), sent, uploadedBytes, reports)
    requires |partEtags| == PartsTotal(|file|, partSize) && Etags(file, partSize, outside, partEtags)
    ensures var n := PartsTotal(|file|, partSize);
      var last := (phase: Phase) => Progress(uploadedBytes, |file|, n, n, phase);
      var ending := EndingAfter(file, partSize, n, n, outside);
      Leaves(file, partSize, outside, ending, sent, partEtags,
             reports + [last(Completing)]
             + if ending == CompleteThrew then [] else [last(if ending == Completed then Done else Error)])
  {
  }

  method UploadSlotFile(file: File, partSizeBytes: int, outside: Outside)
    returns (ending: Ending, sent: seq<File>, partEtags: seq<(int, string)>, reports: seq<Progress>)
    ensures var partSize := PartSize(partSizeBytes);
      var done := DoneParts(file, partSize, outside);
      && ending == EndingAfter(file, partSize, done, PartsTotal(|file|, partSize), outside)
      && sent == Bodies(file, partSize, SentParts(done, ending))
      && |partEtags| == done
      && (forall k :: 0 <= k < done ==> PartOutcome(file, partSize, k, outside) == PartDone(partEtags[k]))
      && reports == Reports(file, partSize, done, ending)
  {
    var partSize := PartSize(partSizeBytes);
    var partsTotal := PartsTotal(|file|, partSize);
    var total := |file|;
    reports := [Progress(0, total, 0, partsTotal, Initiating)];
    var uploadedBytes, completedParts := 0, 0;
    sent, partEtags := [], [];
    if !outside.initiates {
      return InitiateThrew, sent, partEtags, reports;
    }
    for index := 0 to partsTotal
      invariant |partEtags| == completedParts == index
      invariant Progressed(file, partSize, index, sent, uploadedBytes, reports)
      invariant Reaches(file, partSize, index, outside)
      invariant Etags(file, partSize, outside, partEtags)
    {
      var part, blob := UploadPart(file, partSize, index, outside);
      if part.PartStopped? {
        LeavesWhenStopped(file, partSize, index, outside, sent, uploadedBytes, partEtags, reports);
        ending := part.ending;
        if ending != Cancelled {
          sent := sent + [blob];
          if ending != PartThrew {
            reports := reports + [Progress(uploadedBytes, total, completedParts, partsTotal, Error)];
          }
        }
        return;
      }
      ReachesNext(file, partSize, index, outside);
      ProgressStep(file, partSize, index, sent, uploadedBytes, reports);
      EtagsStep(file, partSize, outside, partEtags, part.part);
      sent := sent + [blob];
      uploadedBytes := uploadedBytes + |blob|;
      completedParts := completedParts + 1;
      reports := reports + [Progress(uploadedBytes, total, completedParts, partsTotal, Uploading)];
      partEtags := partEtags + [part.part];
    }
    LeavesWhenThrough(file, partSize, outside, sent, uploadedBytes, partEtags, reports);
    reports := reports + [Progress(uploadedBytes, total, partsTotal, partsTotal, Completing)];
    if outside.completes.None? {
      return CompleteThrew, sent, partEtags, reports;
    }
    ending := if outside.completes.value then Completed else CompleteFailed;
    var phase := if outside.completes.value then Done else Error;
    reports := reports + [Progress(uploadedBytes, total, partsTotal, partsTotal, phase)];
  }

  /** The first report and one after each of the first `n` parts. */
  function PartReports(file: File, partSize: int, n: nat): seq<Progress>
    requires partSize > 0
  {
    if n == 0 then [Progress(0, |file|, 0, PartsTotal(|file|, partSize), Initiating)]
    else
      PartReports(file, partSize, n - 1)
      + [Progress(|Joined(Bodies(file, partSize, n))|, |file|, n, PartsTotal(|file|, partSize), Uploading)]
  }

  function Reports(file: File, partSize: int, done: nat, ending: Ending): seq<Progress>
    requires partSize > 0
  {
    var n, bytes := PartsTotal(|file|, partSize), |Joined(Bodies(file, partSize, done))|;
    PartReports(file, partSize, done)
    + match ending
      case Cancelled => []
      case InitiateThrew => []
      case PartThrew => []
      case CompleteThrew => [Progress(bytes, |file|, n, n, Completing)]
      case Completed => [Progress(bytes, |file|, n, n, Completing), Progress(bytes, |file|, n, n, Done)]
      case CompleteFailed => [Progress(bytes, |file|, n, n, Completing), Progress(bytes, |file|, n, n, Error)]
      case _ => [Progress(bytes, |file|, done, n, Error)]
  }

  // ---- the slices partition the file ----

  lemma {:induction false} CeilBounds(size: int, partSize: int)
    requires partSize > 0
    ensures var c := CeilDiv(size, partSize);
      Offset(c, partSize) >= size && (size > 0 ==> c > 0 && Offset(c - 1, partSize) < size)
  {
    if size > 0 {
      CeilBounds(size - partSize, partSize);
    }
  }

  lemma PartCount(size: nat, partSize: int)
    requires partSize > 0
    ensures var n := PartsTotal(size, partSize);
      Offset(n, partSize) >= size && (size > 0 ==> Offset(n - 1, partSize) < size)
  {
    CeilBounds(size, partSize);
  }

  lemma {:induction false} OffsetGrows(k: nat, n: nat, partSize: int)
    requires partSize > 0 && k <= n
    ensures 0 <= Offset(k, partSize) <= Offset(n, partSize)
    decreases n
  {
    if n > 0 {
      if k < n {
        OffsetGrows(k, n - 1, partSize);
      } else {
        OffsetGrows(k - 1, n - 1, partSize);
      }
    }
  }

  lemma JoinedStep(file: File, partSize: int, k: nat)
    requires partSize > 0
    ensures Joined(Bodies(file, partSize, k + 1)) == Joined(Bodies(file, partSize, k)) + Body(file, k, partSize)
  {
    assert Bodies(file, partSize, k + 1)[..k] == Bodies(file, partSize, k);
  }

  lemma PrefixExtends(file: File, start: int, end: int)
    requires 0 <= start <= end
    ensures file[..Clip(file, start)] + Slice(file, start, end) == file[..Clip(file, end)]
  {
  }

  /** The first `k` bodies joined are the file up to where part `k` starts. */
  lemma {:induction false} JoinedIsPrefix(file: File, partSize: int, k: nat)
    requires partSize > 0
    ensures Joined(Bodies(file, partSize, k)) == file[..Clip(file, Offset(k, partSize))]
  {
    if k > 0 {
      var start := Offset(k - 1, partSize);
      assert Joined(Bodies(file, partSize, k)) == file[..Clip(file, start)] + Body(file, k - 1, partSize) by {
        JoinedIsPrefix(file, partSize, k - 1);
        JoinedStep(file, partSize, k - 1);
      }
      assert start >= 0 by { OffsetGrows(0, k - 1, partSize); }
      PrefixExtends(file, start, start + partSize);
    }
  }

  /** No part is larger than asked for; a part of a file that has bytes has bytes. */
  lemma PartBytes(file: File, partSize: int, k: nat)
    requires partSize > 0 && k < PartsTotal(|file|, partSize)
    ensures |Body(file, k, partSize)| <= partSize
    ensures file != [] ==> Body(file, k, partSize) != []
  {
    var last := PartsTotal(|file|, partSize) - 1;
    OffsetGrows(k, last, partSize);
    PartCount(|file|, partSize);
  }

  /** All bodies in order are the file; none is larger than 8 MiB, and none is empty unless the file is. */
  lemma BodiesPartitionTheFile(file: File, requested: int)
    ensures var size := PartSize(requested);
      var bodies := Bodies(file, size, PartsTotal(|file|, size));
      && Joined(bodies) == file
      && (forall k :: 0 <= k < |bodies| ==> |bodies[k]| <= 8388608)
      && (file != [] ==> forall k :: 0 <= k < |bodies| ==> bodies[k] != [])
  {
    var size := PartSize(requested);
    var n := PartsTotal(|file|, size);
    assert Joined(Bodies(file, size, n)) == file by {
      PartCount(|file|, size);
      JoinedIsPrefix(file, size, n);
    }
    forall k | 0 <= k < n ensures |Body(file, k, size)| <= size && (file != [] ==> Body(file, k, size) != []) {
      PartBytes(file, size, k);
    }
  }

  /** Reported bytes grow with every part of a file that has bytes, and are all of them after the last part. */
  lemma ReportedBytesGrow(file: File, requested: int, k: nat)
    requires k < PartsTotal(|file|, PartSize(requested))
    ensures var size := PartSize(requested);
      var before, after := |Joined(Bodies(file, size, k))|, |Joined(Bodies(file, size, k + 1))|;
      && before <= after <= |file|
      && (file != [] ==> before < after)
      && (k + 1 == PartsTotal(|file|, size) ==> after == |file|)
  {
    var size := PartSize(requested);
    JoinedStep(file, size, k);
    PartBytes(file, size, k);
    JoinedIsPrefix(file, size, k + 1);
    PartCount(|file|, size);
  }

  lemma {:induction false} PartReport(file: File, partSize: int, n: nat, k: nat)
    requires partSize > 0 && k < n
    ensures |PartReports(file, partSize, n)| == n + 1
    ensures PartReports(file, partSize, n)[k + 1]
         == Progress(|Joined(Bodies(file, partSize, k + 1))|, |file|, k + 1, PartsTotal(|file|, partSize), Uploading)
  {
    if k < n - 1 {
      PartReport(file, partSize, n - 1, k);
    } else if n > 1 {
      PartReport(file, partSize, n - 1, 0);
    }
  }

  predicate GoodAnswer(answer: Option<Answer>, partNumber: int, size: nat) {
    Confirmed(answer, size) && answer.value.partNumber == partNumber
  }

  /** A server that answers part `k + 1` with that number and the right size, and an upload nobody cancels: all parts go
      through, numbered 1 to n. */
  lemma {:induction false} GoodServerTakesAllParts(file: File, partSize: int, index: nat, total: nat, outside: Outside)
    requires partSize > 0 && index <= total
    requires forall k: nat :: !outside.aborted(k)
    requires forall k, body :: GoodAnswer(outside.server(k, body), k, |body|)
    ensures Through(file, partSize, index, total, outside) == total
    ensures forall k: nat ::
      PartOutcome(file, partSize, k, outside).PartDone? && PartOutcome(file, partSize, k, outside).part.0 == k + 1
    decreases total - index
  {
    if index < total {
      GoodServerTakesAllParts(file, partSize, index + 1, total, outside);
    }
  }

  /** The parts that went through are the ones before the first that was stopped. */
  lemma {:induction false} ThroughIsFirstStop(file: File, partSize: int, index: nat, total: nat, outside: Outside)
    requires partSize > 0 && index <= total
    ensures var done := Through(file, partSize, index, total, outside);
      && index <= done <= total
      && (forall k :: index <= k < done ==> PartOutcome(file, partSize, k, outside).PartDone?)
      && (done < total ==> PartOutcome(file, partSize, done, outside).PartStopped?)
    decreases total - index
  {
    if index < total && PartOutcome(file, partSize, index, outside).PartDone? {
      ThroughIsFirstStop(file, partSize, index + 1, total, outside);
    }
  }
}
