/**
 * The record the upload form keeps for each file (src/upload/types.ts): the
 * archival reference it is filed under, the dates, the licences, the names
 * fetched from Wikisource, the public file name and its check, and the
 * progress of the upload and of the Wikisource publication.
 */
module Entry {
  import opened Text
  import opened Archives
  import opened DateFields

  /**
   * A name looked up on Wikisource: what the user typed, what was fetched,
   * and the lookup's state (`exists` in the source, a reserved word here).
   */
  datatype NameFieldState = NameFieldState(
    value: string,
    fetched: string,
    pageExists: bool,
    loading: bool,
    lastFetchedTitle: string)

  const EmptyNameState: NameFieldState := NameFieldState("", "", false, false, "")

  datatype SpravaWikisourceState = SpravaWikisourceState(
    name: Option<string>,
    pageExists: bool,
    loading: bool,
    lastFetchedTitle: string)

  const EmptySpravaWikisource: SpravaWikisourceState := SpravaWikisourceState(None, false, false, "")

  /** The state of the public file-name check; only `CheckDone` comes from the network. */
  datatype FileNameCheck =
    | CheckIdle
    | InvalidChars
    | TooShort
    | TooLong
    | CheckLoading
    | CheckDone(fileExists: Option<bool>, blacklisted: Option<bool>)

  datatype UploadStatus = UploadIdle | Uploading | UploadSuccess | UploadError | UploadDuplicate

  datatype WikisourceStatus = PublishIdle | PublishPending | PublishSuccess | PublishError | PublishCancelled

  datatype PageResult = PageResult(url: string, created: Option<bool>, error: Option<string>)

  datatype WikisourceResult = WikisourceResult(
    sprava: Option<PageResult>,
    opys: Option<PageResult>,
    fond: Option<PageResult>,
    archive: Option<PageResult>)

  /** What the form uses of the browser's `File`: its name and size in bytes. */
  datatype FileInfo = FileInfo(name: string, size: nat)

  datatype FileEntry = FileEntry(
    file: FileInfo,
    archive: Option<Archive>,
    fond: string,
    opys: string,
    sprava: string,
    dateMode: DateMode,
    dateFrom: string,
    dateTo: string,
    license: seq<string>,
    fondName: NameFieldState,
    opysName: NameFieldState,
    spravaName: string,
    author: string,
    spravaWikisource: SpravaWikisourceState,
    fileName: string,
    fileNameEdited: bool,
    fileNameCheck: FileNameCheck,
    status: UploadStatus,
    wikisourceStatus: WikisourceStatus,
    wikisourceResult: Option<WikisourceResult>,
    errorMessage: string,
    resultUrl: string,
    duplicateUrl: string,
    uploadProgress: int,
    uploadedBytes: nat,
    totalBytes: nat,
    currentChunk: nat,
    totalChunks: nat,
    submitted: bool)

  /** The date fields of an entry. */
  function Dates(e: FileEntry): DateState {
    DateState(e.dateMode, e.dateFrom, e.dateTo)
  }

  /**
   * `makeEntry`: a new entry for a file, with nothing filled in, nothing
   * submitted, uploaded or published, the file name not edited and its
   * check idle, and the date mode on a range.
   */
  function MakeEntry(file: FileInfo): (e: FileEntry)
    ensures e.file == file && e.archive.None? && !e.submitted
    ensures e.status == UploadIdle && e.wikisourceStatus == PublishIdle && e.wikisourceResult.None?
    ensures e.uploadProgress == 0 && e.uploadedBytes == 0 && e.totalBytes == 0
    ensures e.currentChunk == 0 && e.totalChunks == 0
    ensures e.fileNameCheck == CheckIdle && !e.fileNameEdited && e.dateMode == Range
    ensures e.fond == "" && e.opys == "" && e.sprava == "" && e.spravaName == "" && e.license == []
  {
    FileEntry(file, None, "", "", "", Range, "", "", [], EmptyNameState, EmptyNameState, "",
      "", EmptySpravaWikisource, "", false, CheckIdle, UploadIdle, PublishIdle, None,
      "", "", "", 0, 0, 0, 0, 0, false)
  }

  /** `isFondNameEnabled`: a fond name may be typed once a lookup finished and found no page. */
  predicate IsFondNameEnabled(e: FileEntry) {
    e.fondName.lastFetchedTitle != "" && !e.fondName.loading && !e.fondName.pageExists
  }

  /** `isOpysNameEnabled`: likewise for the opys name. */
  predicate IsOpysNameEnabled(e: FileEntry) {
    e.opysName.lastFetchedTitle != "" && !e.opysName.loading && !e.opysName.pageExists
  }

  /** On a new entry neither name can be typed, since no lookup has happened. */
  lemma FreshEntryNamesDisabled(file: FileInfo)
    ensures !IsFondNameEnabled(MakeEntry(file)) && !IsOpysNameEnabled(MakeEntry(file))
  {
  }
}
