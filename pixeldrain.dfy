/**
 * The upload side of `bot/utils/pixeldrain.py`: its formatting helpers, the
 * chunked file reader that reports progress through a throttled callback,
 * and the decisions around the HTTP PUT (Basic credentials, error status,
 * public link). File contents, wall-clock readings and the server's reply
 * are inputs; the request itself is data.
 */
module Pixeldrain {
  import opened Wrappers
  import opened Tools
  import Encoding

  type Byte = Encoding.Byte

  /**
   * `format_bytes`: try B, KB, MB, GB and TB in turn, dividing by 1024 after
   * each unit the value does not fit; after five divisions the unit is PB.
   * It makes the same choice as `readable_bytes` but takes any real size.
   */
  method FormatBytes(size: real) returns (r: Scaled)
    ensures r == Scale(size)
  {
    var s := size;
    for i := 0 to TopUnit
      invariant ScaleFrom(s, i) == Scale(size)
    {
      if s < 1024.0 {
        return Scaled(s, i);
      }
      s := s / 1024.0;
    }
    return Scaled(s, TopUnit);
  }

  /** The ETA shown during an upload: unbounded, or hours, minutes and seconds. */
  datatype Eta = Unbounded | Clock(h: int, m: int, s: int)

  /**
   * `format_eta`: "∞" exactly when the speed is zero; otherwise the whole
   * seconds `int(remaining / speed)` split into h, m and s with floor
   * division (equal to Dafny's for the positive divisors 3600 and 60).
   */
  function FormatEta(remaining: real, speed: real): (r: Eta)
    ensures r.Unbounded? <==> speed == 0.0
    ensures r.Clock? ==>
      && r.h * 3600 + r.m * 60 + r.s == Trunc(remaining / speed)
      && 0 <= r.m < 60 && 0 <= r.s < 60
  {
    if speed == 0.0 then Unbounded
    else
      var seconds := Trunc(remaining / speed);
      ClockSplit(seconds);
      Clock(seconds / 3600, seconds % 3600 / 60, seconds % 60)
  }

  /** Floor division by 3600 and then by 60 splits any whole count of seconds exactly. */
  lemma ClockSplit(n: int)
    ensures n / 3600 * 3600 + n % 3600 / 60 * 60 + n % 60 == n
    ensures 0 <= n % 3600 / 60 < 60
  {
    var q, r := n / 3600, n % 3600;
    var a, b := r / 60, r % 60;
    assert n == 3600 * q + r && r == 60 * a + b;
    assert n == 60 * (60 * q + a) + b;
    DivUnique(n, 60, 60 * q + a, b);
  }

  const FilledGlyph: char := '▰'
  const EmptyGlyph: char := '▱'

  /** Python's `c * n` on a one-character string: empty when n is not positive. */
  function Repeat(c: char, n: int): (r: string)
    ensures |r| == if n > 0 then n else 0
    ensures forall i :: 0 <= i < |r| ==> r[i] == c
    decreases if n > 0 then n else 0
  {
    if n <= 0 then "" else [c] + Repeat(c, n - 1)
  }

  /** `progress_bar`: `int(percent * size)` filled glyphs, then `size - filled` empty ones. */
  function ProgressBar(percent: real, size: int): (r: string) {
    Bar(Trunc(percent * size as real), size)
  }

  /** `filled` filled glyphs followed by `size - filled` empty ones; a negative count repeats nothing. */
  function Bar(filled: int, size: int): (r: string)
    ensures |r| == (if filled > 0 then filled else 0) + (if size - filled > 0 then size - filled else 0)
    ensures forall i :: 0 <= i < |r| ==> (r[i] == FilledGlyph <==> i < filled)
  {
    Repeat(FilledGlyph, filled) + Repeat(EmptyGlyph, size - filled)
  }

  /**
   * For a fraction between 0 and 1 the bar has exactly `size` glyphs, and
   * the filled ones are the first `int(percent * size)`, a count between 0
   * and `size` that is the floor of `percent * size`.
   */
  lemma ProgressBarShape(percent: real, size: nat)
    requires 0.0 <= percent <= 1.0
    ensures var r := ProgressBar(percent, size);
      var f := Trunc(percent * size as real);
      && 0 <= f <= size && f as real <= percent * size as real < f as real + 1.0
      && |r| == size
      && forall i :: 0 <= i < size ==> (r[i] == FilledGlyph <==> i < f)
  {
    var x := percent * size as real;
    FractionBound(percent, size as real);
    FloorWithin(x, size);
    ProgressBarOf(percent, size, Trunc(x));
  }

  lemma FloorWithin(x: real, size: nat)
    requires 0.0 <= x <= size as real
    ensures var f := Trunc(x); 0 <= f <= size && f as real <= x < f as real + 1.0
  {
  }

  lemma FractionBound(p: real, n: real)
    requires 0.0 <= p <= 1.0 && n >= 0.0
    ensures 0.0 <= p * n <= n
  {
    assert p * n <= 1.0 * n;
  }

  /** The bar's shape once its filled count is known to lie between 0 and `size`. */
  lemma ProgressBarOf(percent: real, size: nat, filled: int)
    requires filled == Trunc(percent * size as real) && 0 <= filled <= size
    ensures var r := ProgressBar(percent, size);
      |r| == size && forall i :: 0 <= i < size ==> (r[i] == FilledGlyph <==> i < filled)
  {
    assert ProgressBar(percent, size) == Bar(filled, size);
  }

  // ---------------------------------------------------------------------
  // UploadStreamReader
  // ---------------------------------------------------------------------

  /** The arguments the reader passes to its progress callback. */
  datatype Progress = Progress(uploaded: int, total: int, speed: real, eta: Eta, percent: real)

  /** One iteration of the reader: the callback's arguments if it fired, then the yielded chunk. */
  datatype Step = Step(progress: Option<Progress>, chunk: seq<Byte>)

  const DefaultChunkSize: int := 1024 * 1024

  /** What `f.read(n)` returns when `rest` is the unread part of the file. */
  function Read(rest: seq<Byte>, n: int): (c: seq<Byte>)
    ensures |c| <= |rest| && c == rest[..|c|]
    ensures n < 0 ==> c == rest
    ensures n >= 0 ==> |c| == if n < |rest| then n else |rest|
  {
    if n < 0 || n >= |rest| then rest else rest[..n]
  }

  /** The chunks the reader yields: successive reads up to the first empty one. */
  function Chunks(rest: seq<Byte>, n: int): seq<seq<Byte>>
    decreases |rest|
  {
    var c := Read(rest, n);
    if c == [] then [] else [c] + Chunks(rest[|c|..], n)
  }

  function Concat(cs: seq<seq<Byte>>): seq<Byte> {
    if cs == [] then [] else cs[0] + Concat(cs[1..])
  }

  /** A non-empty read is the first chunk, and the chunks after it are those of the unread rest. */
  lemma ChunksUnfold(rest: seq<Byte>, n: int)
    requires Read(rest, n) != []
    ensures var c := Read(rest, n);
      && Chunks(rest, n) == [c] + Chunks(rest[|c|..], n)
      && rest == c + rest[|c|..]
  {
    var c := Read(rest, n);
    assert c == rest[..|c|];
    assert rest == rest[..|c|] + rest[|c|..];
  }

  /**
   * The yielded chunks together are the file, unless the chunk size is 0
   * (`read(0)` is empty, so nothing is yielded). An empty file yields nothing.
   */
  lemma {:induction false} ChunksCover(rest: seq<Byte>, n: int)
    ensures n != 0 ==> Concat(Chunks(rest, n)) == rest
    ensures n == 0 || rest == [] ==> Chunks(rest, n) == []
    decreases |rest|
  {
    var c := Read(rest, n);
    if c != [] {
      ChunksUnfold(rest, n);
      ChunksCover(rest[|c|..], n);
      var cs := Chunks(rest, n);
      assert cs[0] == c && cs[1..] == Chunks(rest[|c|..], n);
    }
  }

  /** Every yielded chunk is non-empty and, for a positive chunk size, at most that size. */
  lemma {:induction false} ChunksBounded(rest: seq<Byte>, n: int)
    ensures forall c :: c in Chunks(rest, n) ==> 0 < |c| && (n > 0 ==> |c| <= n)
    decreases |rest|
  {
    var c := Read(rest, n);
    if c != [] {
      ChunksUnfold(rest, n);
      ChunksBounded(rest[|c|..], n);
    }
  }

  /**
   * Everything that decides what an iteration of the reader does: the chunks
   * the file yields, the clock reading taken after chunk k is read, the size
   * recorded at construction, the start time, whether a callback is set, and
   * the counter and last-callback time the iteration starts from.
   */
  datatype Plan = Plan(
    chunks: seq<seq<Byte>>, clock: nat -> real, total: int, start: real,
    notify: bool, uploaded0: int, last0: real)

  /** The `uploaded` counter once k chunks have been read. */
  function Sent(p: Plan, k: nat): int
    requires k <= |p.chunks|
  {
    if k == 0 then p.uploaded0 else Sent(p, k - 1) + |p.chunks[k - 1]|
  }

  /** The throttle rule: ten seconds since the last callback, or the upload has reached the recorded size. */
  predicate Due(now: real, last: real, uploaded: int, total: int) {
    now - last >= 10.0 || uploaded == total
  }

  /** Whether the callback fires before chunk k is yielded. */
  predicate Fires(p: Plan, k: nat)
    requires k < |p.chunks|
    decreases k, 1
  {
    p.notify && Due(p.clock(k), LastAt(p, k), Sent(p, k + 1), p.total)
  }

  /** `last_update_time` before chunk k: it moves only when the callback fires. */
  function LastAt(p: Plan, k: nat): real
    requires k <= |p.chunks|
    decreases k, 0
  {
    if k == 0 then p.last0
    else if Fires(p, k - 1) then p.clock(k - 1)
    else LastAt(p, k - 1)
  }

  /** Firing with a recorded size of 0 divides by zero when the percentage is computed. */
  predicate Faults(p: Plan, k: nat)
    requires k < |p.chunks|
  {
    Fires(p, k) && p.total == 0
  }

  /**
   * The callback's arguments once `uploaded` bytes are read at time `now`:
   * the speed since the start (0 before any time has passed), the ETA of
   * the rest, and the fraction done of the recorded size.
   */
  function CallbackArgs(uploaded: int, total: int, start: real, now: real): Progress
    requires total != 0
  {
    var elapsed := now - start;
    var speed := if elapsed > 0.0 then uploaded as real / elapsed else 0.0;
    Progress(uploaded, total, speed, FormatEta((total - uploaded) as real, speed), uploaded as real / total as real)
  }

  /** The callback's arguments at chunk k. */
  function ProgressAt(p: Plan, k: nat): Progress
    requires k < |p.chunks| && p.total != 0
  {
    CallbackArgs(Sent(p, k + 1), p.total, p.start, p.clock(k))
  }

  function StepAt(p: Plan, k: nat): Step
    requires k < |p.chunks| && !Faults(p, k)
  {
    Step(if Fires(p, k) then Some(ProgressAt(p, k)) else None, p.chunks[k])
  }

  class UploadStreamReader {
    const chunkSize: int
    const notify: bool
    const total: int
    const startTime: real
    var uploaded: int
    var lastUpdateTime: real

    /** `__init__`: the size is taken once, from the file system, at construction. */
    constructor (size: nat, chunkSize: int, notify: bool, startTime: real)
      ensures this.chunkSize == chunkSize && this.notify == notify
      ensures total == size && this.startTime == startTime
      ensures uploaded == 0 && lastUpdateTime == 0.0
    {
      this.chunkSize := chunkSize;
      this.notify := notify;
      this.total := size;
      this.startTime := startTime;
      uploaded := 0;
      lastUpdateTime := 0.0;
    }

    function PlanFor(contents: seq<Byte>, clock: nat -> real): Plan
      reads this
    {
      Plan(Chunks(contents, chunkSize), clock, total, startTime, notify, uploaded, lastUpdateTime)
    }

    /**
     * `__aiter__` over a file whose contents are `contents`, with `clock(k)`
     * the time read after chunk k. The steps are those of the plan up to the
     * first division fault, which ends the iteration before its chunk is
     * yielded (the counter already includes that chunk).
     */
    method Iterate(contents: seq<Byte>, clock: nat -> real) returns (steps: seq<Step>, faulted: bool)
      modifies this
      ensures var p := old(PlanFor(contents, clock));
        && |steps| <= |p.chunks|
        && (faulted <==> |steps| < |p.chunks|)
        && (forall k :: 0 <= k < |steps| ==> !Faults(p, k) && steps[k] == StepAt(p, k))
        && (faulted ==> Faults(p, |steps|) && uploaded == Sent(p, |steps| + 1))
        && (!faulted ==> uploaded == Sent(p, |steps|))
        && lastUpdateTime == LastAt(p, |steps|)
    {
      ghost var p := PlanFor(contents, clock);
      var rest := contents;
      steps := [];
      faulted := false;
      var k := 0;
      while true
        invariant 0 <= k <= |p.chunks| && |steps| == k
        invariant Chunks(rest, chunkSize) == p.chunks[k..]
        invariant forall i :: 0 <= i < k ==> !Faults(p, i) && steps[i] == StepAt(p, i)
        invariant uploaded == Sent(p, k) && lastUpdateTime == LastAt(p, k)
        invariant p.clock == clock && p.total == total && p.start == startTime && p.notify == notify
        decreases |rest|
      {
        var chunk := Read(rest, chunkSize);
        if chunk == [] {
          assert p.chunks[k..] == [];
          break;
        }
        NextChunk(p.chunks, k, rest, chunkSize);
        PlanAdvance(p, k);

        rest := rest[|chunk|..];
        uploaded := uploaded + |chunk|;
        var now := clock(k);
        var progress: Option<Progress> := None;
        if notify && Due(now, lastUpdateTime, uploaded, total) {
          if total == 0 {
            faulted := true;
            return;
          }
          progress := Some(CallbackArgs(uploaded, total, startTime, now));
          lastUpdateTime := now;
        }
        steps := steps + [Step(progress, chunk)];
        k := k + 1;
      }
    }
  }

  /** One chunk further into the plan: the counter, the firing decision and the last callback time. */
  lemma PlanAdvance(p: Plan, k: nat)
    requires k < |p.chunks|
    ensures Sent(p, k + 1) == Sent(p, k) + |p.chunks[k]|
    ensures Fires(p, k) == (p.notify && Due(p.clock(k), LastAt(p, k), Sent(p, k + 1), p.total))
    ensures LastAt(p, k + 1) == if Fires(p, k) then p.clock(k) else LastAt(p, k)
  {
  }

  /** Reading from the unread rest yields the plan's next chunk. */
  lemma NextChunk(cs: seq<seq<Byte>>, k: nat, rest: seq<Byte>, n: int)
    requires k <= |cs| && Chunks(rest, n) == cs[k..] && Read(rest, n) != []
    ensures k < |cs| && cs[k] == Read(rest, n)
    ensures cs[k + 1..] == Chunks(rest[|Read(rest, n)|..], n)
  {
    ChunksUnfold(rest, n);
    assert cs[k..][0] == cs[k] && cs[k..][1..] == cs[k + 1..];
  }

  /** Before chunk k the counter is the start value plus everything read so far. */
  lemma {:induction false} SentSoFar(p: Plan, k: nat)
    requires k <= |p.chunks|
    ensures Sent(p, k) + |Concat(p.chunks[k..])| == p.uploaded0 + |Concat(p.chunks)|
  {
    if k > 0 {
      SentSoFar(p, k - 1);
      var cs := p.chunks[k - 1..];
      assert cs[0] == p.chunks[k - 1] && cs[1..] == p.chunks[k..];
    } else {
      assert p.chunks[0..] == p.chunks;
    }
  }

  /**
   * A fresh reader over an unchanged file of at least one byte, with a
   * callback and a positive chunk size: the counter ends at the recorded
   * size, and the callback fires on the last chunk whatever the clock says.
   */
  lemma UploadCompletes(p: Plan, contents: seq<Byte>, n: int)
    requires n != 0 && p.chunks == Chunks(contents, n) && contents != []
    requires p.uploaded0 == 0 && p.total == |contents| && p.notify
    ensures |p.chunks| > 0
    ensures Sent(p, |p.chunks|) == p.total
    ensures Fires(p, |p.chunks| - 1)
  {
    ChunksCover(contents, n);
    SentSoFar(p, |p.chunks|);
    assert p.chunks[|p.chunks|..] == [];
  }

  /** Between two firings the last-callback time stays at the earlier one. */
  lemma {:induction false} LastSinceFire(p: Plan, i: nat, m: nat)
    requires i < m <= |p.chunks|
    requires Fires(p, i)
    requires forall j :: i < j < m ==> !Fires(p, j)
    ensures LastAt(p, m) == p.clock(i)
  {
    if m > i + 1 {
      LastSinceFire(p, i, m - 1);
    }
  }

  /**
   * The throttle, stated over the whole iteration: after a callback at chunk
   * i and none since, the callback at a later chunk j fires exactly when
   * ten seconds have passed since i's reading or chunk j completes the
   * recorded size.
   */
  lemma Throttle(p: Plan, i: nat, j: nat)
    requires i < j < |p.chunks|
    requires Fires(p, i)
    requires forall m :: i < m < j ==> !Fires(p, m)
    ensures Fires(p, j) <==> p.notify && (p.clock(j) - p.clock(i) >= 10.0 || Sent(p, j + 1) == p.total)
  {
    LastSinceFire(p, i, j);
  }

  /**
   * For a fresh reader (last-callback time 0), the first chunk fires once
   * the clock reads at least ten seconds.
   */
  lemma FirstChunkFires(p: Plan)
    requires |p.chunks| > 0 && p.notify && p.last0 == 0.0 && p.clock(0) >= 10.0
    ensures Fires(p, 0)
  {
  }

  // ---------------------------------------------------------------------
  // upload_file_to_pixeldrain
  // ---------------------------------------------------------------------

  const ApiFileUrl: string := "https://pixeldrain.com/api/file/"
  const PublicUrl: string := "https://pixeldrain.com/u/"
  const BasicScheme: string := "Basic "

  datatype Request = Request(url: string, authorization: string)

  /**
   * The PUT target and the Authorization header: the Basic scheme of
   * RFC 7617, section 2, with an empty user-id and the API key as password,
   * i.e. base 64 of the UTF-8 bytes of ":" followed by the key.
   */
  function UploadRequest(fileName: string, apiKey: string): Request {
    Request(ApiFileUrl + fileName, BasicScheme + Encoding.Encode(Encoding.Utf8(":" + apiKey)))
  }

  /**
   * The Authorization header decodes back to the credentials: after the
   * scheme name comes valid base 64 whose first byte is the colon (an empty
   * user-id) and whose remaining bytes are the key in UTF-8.
   */
  lemma BasicCredentials(fileName: string, apiKey: string)
    ensures var h := UploadRequest(fileName, apiKey).authorization;
      && |h| >= |BasicScheme| && h[..|BasicScheme|] == BasicScheme
      && Encoding.Decode(h[|BasicScheme|..]) == Some([0x3A as Byte] + Encoding.Utf8(apiKey))
  {
    var bytes := Encoding.Utf8(":" + apiKey);
    assert (":" + apiKey)[1..] == apiKey;
    assert bytes == Encoding.Utf8Char(':') + Encoding.Utf8(apiKey);
    Encoding.DecodeEncode(bytes);
  }

  /** Python's f-string rendering of `result.get("id")`: a missing id reads "None". */
  function IdText(id: Option<string>): string {
    match id
    case Some(s) => s
    case None => "None"
  }

  /**
   * The reply decision: a status of 400 or more raises with the response
   * body and gives no link; otherwise the link is the public URL of the id.
   */
  function UploadResult(status: int, body: string, id: Option<string>): (r: Result<string, string>)
    ensures r.Failure? <==> status >= 400
    ensures r.Failure? ==> r.error == "Upload failed: " + body
    ensures r.Success? ==> |r.value| >= |PublicUrl| && r.value[..|PublicUrl|] == PublicUrl
  {
    if status >= 400 then Failure("Upload failed: " + body)
    else Success(PublicUrl + IdText(id))
  }

  /** The file id that a public link names. */
  function LinkId(link: string): string
    requires |link| >= |PublicUrl|
  {
    link[|PublicUrl|..]
  }

  /** On success the link gives back exactly the id the server returned. */
  lemma LinkNamesId(status: int, body: string, id: Option<string>)
    requires status < 400
    ensures UploadResult(status, body, id).Success?
    ensures LinkId(UploadResult(status, body, id).value) == IdText(id)
  {
  }

  /** The error a division fault in the progress callback raises. */
  const DivisionFault: string := "division by zero"

  /**
   * `upload_file_to_pixeldrain`: build the request, stream the file through
   * a fresh reader with a callback and the default chunk size, then decide
   * on the reply. A fault while streaming ends the upload with no link.
   */
  method UploadFileToPixeldrain(
    fileName: string, apiKey: string, size: nat, contents: seq<Byte>,
    clock: nat -> real, startTime: real, status: int, body: string, id: Option<string>)
    returns (request: Request, steps: seq<Step>, r: Result<string, string>)
    ensures request == UploadRequest(fileName, apiKey)
    ensures var p := Plan(Chunks(contents, DefaultChunkSize), clock, size, startTime, true, 0, 0.0);
      && |steps| <= |p.chunks|
      && (forall k :: 0 <= k < |steps| ==> !Faults(p, k) && steps[k] == StepAt(p, k))
      && (|steps| < |p.chunks| ==> Faults(p, |steps|) && r == Failure(DivisionFault))
      && (|steps| == |p.chunks| ==> r == UploadResult(status, body, id))
  {
    var reader := new UploadStreamReader(size, DefaultChunkSize, true, startTime);
    request := UploadRequest(fileName, apiKey);
    var faulted;
    steps, faulted := reader.Iterate(contents, clock);
    if faulted {
      return request, steps, Failure(DivisionFault);
    }
    r := UploadResult(status, body, id);
  }
}
