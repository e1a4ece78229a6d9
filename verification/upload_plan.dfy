/**
 * The client side of sending an entry (src/upload/upload.ts): how a large
 * file is cut into chunks, how the commit's answer is passed back through a
 * string sentinel, and what is asked of the Wikisource publication (the
 * date string and which pages to update).
 */
module UploadPlan {
  import opened Text
  import opened Entry

  /** `CHUNK_SIZE`: 20 MiB. */
  const ChunkSize: nat := 20 * 1024 * 1024
  /** `LARGE_FILE_THRESHOLD`: files above it are sent in chunks. */
  const LargeFileThreshold: nat := 20 * 1024 * 1024

  predicate IsLarge(size: nat) {
    size > LargeFileThreshold
  }

  /** `Math.ceil(fileSize / CHUNK_SIZE)`: the fewest chunks of at most `ChunkSize` bytes that hold the file. */
  function ChunkCount(size: nat): (r: nat)
    ensures r * ChunkSize >= size
    ensures r > 0 ==> (r - 1) * ChunkSize < size
  {
    (size + ChunkSize - 1) / ChunkSize
  }

  /** A half-open byte range `[start, end)` of the file. */
  datatype Span = Span(start: nat, end: nat)

  /**
   * The spans tile `[0, size)`: each is non-empty and at most a chunk long,
   * the first starts at 0, each starts where the previous ended, and the
   * last ends at `size`.
   */
  predicate Tiles(spans: seq<Span>, size: nat) {
    && (spans == [] <==> size == 0)
    && (spans != [] ==> spans[0].start == 0 && spans[|spans| - 1].end == size)
    && (forall k :: 0 <= k < |spans| ==> spans[k].start < spans[k].end <= spans[k].start + ChunkSize)
    && (forall k :: 0 <= k < |spans| - 1 ==> spans[k].end == spans[k + 1].start)
  }

  /**
   * The loop of `uploadFile`'s chunked path, without the network: chunk
   * `i` runs from `i * CHUNK_SIZE` to the smaller of a chunk further and the
   * file's end, for each of the `ChunkCount(size)` chunks.
   */
  method ChunkSpans(size: nat) returns (spans: seq<Span>)
    ensures |spans| == ChunkCount(size)
    ensures forall k :: 0 <= k < |spans| ==> spans[k].start == k * ChunkSize
    ensures Tiles(spans, size)
  {
    var totalChunks := (size + ChunkSize - 1) / ChunkSize;
    spans := [];
    var i := 0;
    while i < totalChunks
      invariant 0 <= i <= totalChunks
      invariant |spans| == i
      invariant forall k :: 0 <= k < i ==> spans[k].start == k * ChunkSize
      invariant forall k :: 0 <= k < i ==> spans[k].start < spans[k].end <= spans[k].start + ChunkSize
      invariant forall k :: 0 <= k < i ==> spans[k].end == if k + 1 < totalChunks then (k + 1) * ChunkSize else size
    {
      var chunkStart := i * ChunkSize;
      var chunkEnd := if chunkStart + ChunkSize < size then chunkStart + ChunkSize else size;
      spans := spans + [Span(chunkStart, chunkEnd)];
      i := i + 1;
    }
  }

  /** Every byte of a tiled file lies in one of the spans. */
  lemma {:induction false} TilesCover(spans: seq<Span>, size: nat, b: nat)
    requires Tiles(spans, size) && b < size
    ensures exists k :: 0 <= k < |spans| && spans[k].start <= b < spans[k].end
  {
    var n := |spans|;
    if b >= spans[n - 1].start {
      assert spans[n - 1].start <= b < spans[n - 1].end;
    } else {
      var prefix := spans[..n - 1];
      assert Tiles(prefix, spans[n - 1].start);
      TilesCover(prefix, spans[n - 1].start, b);
      var k :| 0 <= k < |prefix| && prefix[k].start <= b < prefix[k].end;
      assert spans[k] == prefix[k];
    }
  }

  /** The spans of a tiling do not overlap: later spans start where earlier ones have ended. */
  lemma {:induction false} TilesDisjoint(spans: seq<Span>, size: nat, j: nat, k: nat)
    requires Tiles(spans, size) && j < k < |spans|
    ensures spans[j].end <= spans[k].start
    decreases k - j
  {
    if j + 1 < k {
      TilesDisjoint(spans, size, j + 1, k);
    }
  }

  /** A file above the threshold goes in at least two chunks. */
  lemma LargeFileSeveralChunks(size: nat)
    requires IsLarge(size)
    ensures ChunkCount(size) >= 2
  {
  }

  /** The prefix `commitUpload` puts before a duplicate's URL. */
  const DuplicatePrefix := "__duplicate__"

  /**
   * What the upload endpoint answers, each field the empty string when
   * absent (the source tests them for truthiness).
   */
  datatype Response = Response(url: string, duplicateUrl: string, error: string)

  /** `UploadResult`. */
  datatype UploadResult = Uploaded(url: string) | Duplicate(duplicateUrl: string) | Refused(errorMessage: string)

  /** A call that either returns a value or throws an error with a message. */
  datatype Outcome<T> = Returned(value: T) | Thrown(message: string)

  /** `commitUpload`: a duplicate comes back as the sentinel prefix and its URL; an error is thrown. */
  function CommitUpload(d: Response): (r: Outcome<string>)
    ensures d.duplicateUrl != "" ==> r == Returned(DuplicatePrefix + d.duplicateUrl)
    ensures r.Thrown? <==> d.duplicateUrl == "" && d.error != ""
    ensures r.Thrown? ==> r.message == d.error
  {
    if d.duplicateUrl != "" then Returned(DuplicatePrefix + d.duplicateUrl)
    else if d.error != "" then Thrown(d.error)
    else Returned(d.url)
  }

  /** How `uploadFile` reads the committed string back. */
  function DecodeCommit(url: string): (r: UploadResult)
    ensures r.Duplicate? <==> StartsWith(url, DuplicatePrefix)
    ensures r.Duplicate? ==> url == DuplicatePrefix + r.duplicateUrl
    ensures r.Uploaded? ==> r.url == url
  {
    if StartsWith(url, DuplicatePrefix) then Duplicate(url[|DuplicatePrefix|..])
    else Uploaded(url)
  }

  /** The sentinel round-trips: the prefixed URL is recognised and sliced back to the URL. */
  lemma SentinelRoundTrip(u: string)
    ensures DecodeCommit(DuplicatePrefix + u) == Duplicate(u)
  {
    assert (DuplicatePrefix + u)[..|DuplicatePrefix|] == DuplicatePrefix;
    assert (DuplicatePrefix + u)[|DuplicatePrefix|..] == u;
  }

  /** `uploadFile`'s chunked path once the chunks are sent: commit, then decode. */
  function LargeOutcome(d: Response): (r: Outcome<UploadResult>)
    ensures r.Thrown? <==> CommitUpload(d).Thrown?
    ensures r.Returned? ==> r.value == DecodeCommit(CommitUpload(d).value)
  {
    match CommitUpload(d)
    case Returned(url) => Returned(DecodeCommit(url))
    case Thrown(m) => Thrown(m)
  }

  /** `uploadFile`'s direct path: duplicate first, then error, then success; nothing is thrown. */
  function SmallOutcome(d: Response): (r: Outcome<UploadResult>)
    ensures r.Returned?
    ensures r.value.Duplicate? <==> d.duplicateUrl != ""
    ensures r.value.Refused? <==> d.duplicateUrl == "" && d.error != ""
  {
    if d.duplicateUrl != "" then Returned(Duplicate(d.duplicateUrl))
    else if d.error != "" then Returned(Refused(d.error))
    else Returned(Uploaded(d.url))
  }

  /**
   * The two paths give the same result for the same answer, except that
   * the chunked path throws the endpoint's error where the direct path
   * returns it; a success URL must not itself start with the sentinel.
   */
  lemma PathsAgree(d: Response)
    requires !StartsWith(d.url, DuplicatePrefix)
    ensures d.duplicateUrl != "" || d.error == "" ==> LargeOutcome(d) == SmallOutcome(d)
    ensures d.duplicateUrl == "" && d.error != "" ==>
      LargeOutcome(d) == Thrown(d.error) && SmallOutcome(d) == Returned(Refused(d.error))
  {
    if d.duplicateUrl != "" {
      SentinelRoundTrip(d.duplicateUrl);
    }
  }

  /**
   * `buildWikiSourceDateStr`: the start alone for a free-text date, a
   * missing end or an end equal to the start; otherwise start, a hyphen and
   * end.
   */
  function BuildWikiSourceDateStr(dateFrom: string, dateTo: string, isArbitraryDate: bool): (r: string)
    ensures r == dateFrom <==> isArbitraryDate || dateTo == "" || dateFrom == dateTo
    ensures r != dateFrom ==> r == dateFrom + "-" + dateTo
  {
    if isArbitraryDate || dateTo == "" || dateFrom == dateTo then dateFrom
    else dateFrom + "-" + dateTo
  }

  /** When the start has no hyphen, a range's string splits at its first hyphen back into start and end. */
  lemma DateStrSplits(dateFrom: string, dateTo: string)
    requires '-' !in dateFrom && dateTo != "" && dateFrom != dateTo
    ensures IndexOf(BuildWikiSourceDateStr(dateFrom, dateTo, false), "-", 0) == Some(|dateFrom|)
    ensures BuildWikiSourceDateStr(dateFrom, dateTo, false)[..|dateFrom|] == dateFrom
    ensures BuildWikiSourceDateStr(dateFrom, dateTo, false)[|dateFrom| + 1..] == dateTo
  {
    var r := dateFrom + "-" + dateTo;
    assert OccursAt(r, "-", |dateFrom|);
    forall j | 0 <= j < |dateFrom| ensures !OccursAt(r, "-", j) {
      assert r[j] == dateFrom[j];
    }
  }

  /** Which Wikisource pages the publication asks to update. */
  datatype PublishFlags = PublishFlags(updateOpys: bool, updateFond: bool, updateArchive: bool)

  /**
   * The flags of `callWikisourcePublish`: the opys page when the sprava or
   * opys page is missing, the fond page when the opys or fond page is
   * missing, the archive page when the fond page is missing.
   */
  function Flags(e: FileEntry): (r: PublishFlags)
    ensures r.updateOpys <==> !e.spravaWikisource.pageExists || !e.opysName.pageExists
    ensures r.updateFond <==> !e.opysName.pageExists || !e.fondName.pageExists
    ensures r.updateArchive <==> !e.fondName.pageExists
  {
    PublishFlags(
      !e.spravaWikisource.pageExists || !e.opysName.pageExists,
      !e.opysName.pageExists || !e.fondName.pageExists,
      !e.fondName.pageExists)
  }

  /**
   * A missing page is listed on the level above it, so updates run
   * upwards: an archive update comes with a fond update, and a missing opys
   * page updates both the opys and the fond page.
   */
  lemma FlagsCascade(e: FileEntry)
    ensures Flags(e).updateArchive ==> Flags(e).updateFond
    ensures !e.opysName.pageExists ==> Flags(e).updateOpys && Flags(e).updateFond
  {
  }

  /** `fetched || value`: the name found on Wikisource when there is one, else the one typed. */
  function ChosenName(n: NameFieldState): (r: string)
    ensures r == "" ==> n.fetched == "" && n.value == ""
    ensures n.fetched != "" ==> r == n.fetched
    ensures n.fetched == "" ==> r == n.value
  {
    if n.fetched != "" then n.fetched else n.value
  }
}
