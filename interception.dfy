/**
  The download interception and batch capture state of the service worker
  (background.js:28-41, 43-372): the module-level variables become the
  fields of class `Background`, the message handlers and the two download
  events become its methods, and the calls into `chrome.downloads` are
  appended to an effect log. The `setTimeout` callbacks are never
  cancelled, so each is kept as a pending `Timer` until the environment
  fires it; the promise of the re-download is kept as an `InFlight` record
  until the environment delivers the new download id.

  Each method is specified by a function on `State`, the value of all the
  fields; the lemmas below state what the handlers promise about those
  functions.
*/
module Interception {
  import opened Wrappers
  import opened Text
  import FileNames

  /** The fields of a `DownloadItem` the handlers read; a missing string
      property is "". */
  datatype DownloadItem = DownloadItem(id: nat, url: string, referrer: string, finalUrl: string, filename: string, mime: string)

  /** `interceptedDownload`: what GET_INTERCEPTED_DOWNLOAD hands out. */
  datatype Intercepted = Intercepted(originalId: nat, newId: nat, filename: string, url: string)

  /** `redownloadInfo`: the name the re-download is to get and the id of
      the cancelled original. */
  datatype Redownload = Redownload(filename: string, originalId: nat)

  /** `capturedDownload`, with the `filename` the filename event may add. */
  datatype Captured = Captured(url: string, downloadId: nat, mime: string, name: Option<string>, artifactType: Option<string>, filename: Option<string>)

  /** A re-download whose `chrome.downloads.download` promise is pending. */
  datatype InFlight = InFlight(originalId: nat, filename: string, url: string)

  /** A `setTimeout` callback not yet run: the 30 s clearing of the pending
      name, the 15 s expiry of intercept mode, the 1 s erase of a cancelled
      original. */
  datatype Timer = ClearPending | ExpireIntercept | EraseOriginal(id: nat)

  /** A call into `chrome.downloads`; `Suggest` is the filename event's
      `suggest` callback. */
  datatype Effect =
    | Cancel(id: nat)
    | Download(url: string, filename: Option<string>, saveAs: bool)
    | Erase(id: nat)
    | Suggest(id: nat, name: string)

  datatype State = State(
    pendingName: Option<string>, pendingType: Option<string>,
    batchMode: bool, captured: Option<Captured>,
    interceptMode: bool, intercepted: Option<Intercepted>, redownload: Option<Redownload>,
    inFlight: seq<InFlight>, timers: seq<Timer>, effects: seq<Effect>)

  /** JavaScript truthiness of a string variable that may be `null`. */
  predicate Truthy(v: Option<string>) {
    v.Some? && v.value != ""
  }

  /** The origin test of the created event (background.js:178-181). */
  predicate CreatedFromNotebookLM(item: DownloadItem) {
    Includes(item.url, "notebooklm") || Includes(item.url, "googleusercontent") || Includes(item.referrer, "notebooklm")
  }

  /** The origin test of the filename event (background.js:294-296). */
  predicate DeterminingFromNotebookLM(item: DownloadItem) {
    Includes(item.url, "notebooklm") || Includes(item.referrer, "notebooklm") || Includes(item.finalUrl, "googleusercontent")
  }

  // ---------------------------------------------------------------------
  // Specification of each handler

  /** SET_PENDING_DOWNLOAD (background.js:64-75). */
  function AfterSetPending(s: State, name: Option<string>, artifactType: Option<string>): State {
    s.(pendingName := name, pendingType := artifactType, timers := s.timers + [ClearPending])
  }

  /** START_INTERCEPT_DOWNLOAD (background.js:77-92). */
  function AfterStartIntercept(s: State, name: Option<string>, artifactType: Option<string>): State {
    s.(interceptMode := true, intercepted := None, pendingName := name, pendingType := artifactType,
       timers := s.timers + [ExpireIntercept])
  }

  /** GET_INTERCEPTED_DOWNLOAD (background.js:94-103): the stored result,
      which is cleared. */
  function AfterGetIntercepted(s: State): (State, Option<Intercepted>) {
    (s.(intercepted := None), s.intercepted)
  }

  /** CANCEL_INTERCEPT (background.js:105-112). */
  function AfterCancelIntercept(s: State): State {
    s.(interceptMode := false)
  }

  /** START_BATCH_DOWNLOAD (background.js:114-124). */
  function AfterStartBatch(s: State): State {
    if !s.batchMode then s.(batchMode := true, captured := None) else s
  }

  /** END_BATCH_DOWNLOAD (background.js:126-131). */
  function AfterEndBatch(s: State): State {
    s.(batchMode := false, captured := None)
  }

  /** GET_CAPTURED_DOWNLOAD (background.js:133-141): the slot, which is
      cleared. */
  function AfterGetCaptured(s: State): (State, Option<Captured>) {
    (s.(captured := None), s.captured)
  }

  /** Timer `k` runs and is removed. */
  function AfterFire(s: State, k: nat): State
    requires k < |s.timers|
  {
    var rest := s.timers[..k] + s.timers[k + 1..];
    match s.timers[k]
    case ClearPending => s.(pendingName := None, pendingType := None, timers := rest)
    case ExpireIntercept => s.(interceptMode := false, timers := rest)
    case EraseOriginal(id) => s.(timers := rest, effects := s.effects + [Erase(id)])
  }

  /** The name the created event gives a re-download (background.js:189-220). */
  function RedownloadName(s: State, item: DownloadItem): string {
    var base := if Truthy(s.pendingName) then s.pendingName.value else "download";
    FileNames.ReplaceReserved(base) + FileNames.CreatedExtension(item.filename, item.mime, s.pendingType)
  }

  /** The intercept branch of the created event (background.js:185-271):
      the mode is cleared, the original is cancelled and downloaded again,
      and its new name `name` is kept for the filename event. */
  function Intercepting(s: State, item: DownloadItem, name: string): State {
    s.(interceptMode := false, redownload := Some(Redownload(name, item.id)),
       pendingName := None, pendingType := None,
       effects := s.effects + [Cancel(item.id), Download(item.url, None, false)],
       inFlight := s.inFlight + [InFlight(item.id, name, item.url)])
  }

  /** `chrome.downloads.onCreated` (background.js:178-289). */
  function AfterCreated(s: State, item: DownloadItem): State {
    var matching := CreatedFromNotebookLM(item) && item.url != "";
    if s.interceptMode && matching then Intercepting(s, item, RedownloadName(s, item))
    else if s.batchMode && matching && s.captured.None? then
      s.(captured := Some(Captured(item.url, item.id, item.mime, s.pendingName, s.pendingType, None)))
    else s
  }

  /** The re-download `k` started with id `newId` (background.js:246-268). */
  function AfterRedownloadStarted(s: State, k: nat, newId: nat): State
    requires k < |s.inFlight|
  {
    var f := s.inFlight[k];
    s.(intercepted := Some(Intercepted(f.originalId, newId, f.filename, f.url)),
       inFlight := s.inFlight[..k] + s.inFlight[k + 1..],
       timers := s.timers + [EraseOriginal(f.originalId)])
  }

  /** `chrome.downloads.onDeterminingFilename` (background.js:292-372): the
      new state and the listener's return value. */
  function AfterDetermining(s: State, item: DownloadItem): (State, bool) {
    var fromNotebookLM := DeterminingFromNotebookLM(item);
    if s.redownload.Some? && item.id == s.redownload.value.originalId then (s, false)
    else if s.redownload.Some? && fromNotebookLM then
      (s.(redownload := None, effects := s.effects + [Suggest(item.id, s.redownload.value.filename)]), true)
    else if !Truthy(s.pendingName) || !fromNotebookLM then (s, false)
    else
      var name := FileNames.ReplaceReserved(s.pendingName.value) + FileNames.DeterminedExtension(item.filename, item.mime);
      if s.batchMode then
        var captured :=
          if s.captured.Some? && s.captured.value.downloadId == item.id
          then Some(s.captured.value.(filename := Some(name)))
          else s.captured;
        (s.(captured := captured, pendingName := None, pendingType := None), false)
      else
        (s.(pendingName := None, pendingType := None, effects := s.effects + [Suggest(item.id, name)]), true)
  }

  // ---------------------------------------------------------------------
  // Properties of the handlers

  /** START_INTERCEPT_DOWNLOAD arms the mode, forgets an earlier result,
      takes the new name and type and schedules one expiry; CANCEL_INTERCEPT
      only clears the mode. */
  lemma StartAndCancel(s: State, name: Option<string>, artifactType: Option<string>)
    ensures var t := AfterStartIntercept(s, name, artifactType);
            && t.interceptMode && t.intercepted.None?
            && t.pendingName == name && t.pendingType == artifactType
            && t.timers == s.timers + [ExpireIntercept]
            && t.batchMode == s.batchMode && t.captured == s.captured && t.redownload == s.redownload
    ensures AfterCancelIntercept(s) == s.(interceptMode := false)
  {
  }

  /** An expiry only clears the mode: the pending name, the stored result
      and the batch state are kept. */
  lemma ExpiryOnlyDisarms(s: State, k: nat)
    requires k < |s.timers| && s.timers[k] == ExpireIntercept
    ensures var t := AfterFire(s, k);
            && !t.interceptMode
            && t.pendingName == s.pendingName && t.pendingType == s.pendingType
            && t.intercepted == s.intercepted && t.redownload == s.redownload
            && t.batchMode == s.batchMode && t.captured == s.captured
            && |t.timers| == |s.timers| - 1
  {
  }

  /** The expiry scheduled by an earlier arm, still pending, disarms a later
      arm long before that arm's own 15 s are up: the timers are never
      cancelled. */
  lemma StaleExpiryDisarmsNewerArm(s: State, n1: Option<string>, t1: Option<string>, n2: Option<string>, t2: Option<string>)
    ensures var armed := AfterStartIntercept(AfterStartIntercept(s, n1, t1), n2, t2);
            && armed.interceptMode
            && |s.timers| < |armed.timers| && armed.timers[|s.timers|] == ExpireIntercept
            && !AfterFire(armed, |s.timers|).interceptMode
            && AfterFire(armed, |s.timers|).pendingName == n2
  {
    var armed := AfterStartIntercept(AfterStartIntercept(s, n1, t1), n2, t2);
    assert armed.timers == s.timers + [ExpireIntercept, ExpireIntercept];
  }

  /** The stored result is handed out at most once: a second request right
      after the first gets `success: false`; nothing else changes. */
  lemma InterceptedOnce(s: State)
    ensures var (t, r) := AfterGetIntercepted(s);
            && r == s.intercepted
            && t == s.(intercepted := None)
            && AfterGetIntercepted(t).1.None?
  {
  }

  /** A new result is stored only when the promise of a re-download
      resolves, and it carries the original id and the name chosen for it. */
  lemma ResultOfRedownload(s: State, k: nat, newId: nat)
    requires k < |s.inFlight|
    ensures var t := AfterRedownloadStarted(s, k, newId);
            && t.intercepted == Some(Intercepted(s.inFlight[k].originalId, newId, s.inFlight[k].filename, s.inFlight[k].url))
            && |t.inFlight| == |s.inFlight| - 1
            && t.timers == s.timers + [EraseOriginal(s.inFlight[k].originalId)]
            && t.interceptMode == s.interceptMode && t.redownload == s.redownload
  {
  }

  /** A matching download while armed: the mode is cleared, the pending
      name and type are dropped, the original is cancelled and downloaded
      again, and the name and the original id are recorded for the filename
      event; the name takes the extension the created handler picks. */
  lemma ArmedDownloadIntercepted(s: State, item: DownloadItem)
    requires s.interceptMode && CreatedFromNotebookLM(item) && item.url != ""
    ensures var t := AfterCreated(s, item);
            && !t.interceptMode && t.pendingName.None? && t.pendingType.None?
            && t.redownload == Some(Redownload(RedownloadName(s, item), item.id))
            && t.effects == s.effects + [Cancel(item.id), Download(item.url, None, false)]
            && t.captured == s.captured
    ensures var base := if Truthy(s.pendingName) then s.pendingName.value else "download";
            && RedownloadName(s, item)[..|base|] == FileNames.ReplaceReserved(base)
            && FileNames.NoReserved(RedownloadName(s, item)[..|base|])
  {
    var base := if Truthy(s.pendingName) then s.pendingName.value else "download";
    var name := RedownloadName(s, item);
    FileNames.ReplaceReservedSpec(base);
    assert name[..|base|] == FileNames.ReplaceReserved(base);
  }

  /** A download is captured exactly when batch mode is on, intercept mode
      does not claim it, it comes from NotebookLM and the slot is empty; a
      captured download is never replaced by a later one. */
  lemma FirstCaptureWins(s: State, item: DownloadItem)
    ensures AfterCreated(s, item).captured != s.captured <==>
              s.batchMode && !s.interceptMode && CreatedFromNotebookLM(item) && item.url != "" && s.captured.None?
    ensures s.captured.Some? ==> AfterCreated(s, item).captured == s.captured
  {
  }

  /** START_BATCH_DOWNLOAD while in batch mode changes nothing;
      GET_CAPTURED_DOWNLOAD returns the slot and empties it. */
  lemma BatchMessages(s: State)
    ensures s.batchMode ==> AfterStartBatch(s) == s
    ensures !s.batchMode ==> AfterStartBatch(s) == s.(batchMode := true, captured := None)
    ensures AfterGetCaptured(s).1 == s.captured && AfterGetCaptured(s).0 == s.(captured := None)
  {
  }

  /** The cancelled original is never renamed: its filename event changes
      nothing and suggests nothing. */
  lemma OriginalNotRenamed(s: State, item: DownloadItem)
    requires s.redownload.Some? && item.id == s.redownload.value.originalId
    ensures AfterDetermining(s, item) == (s, false)
  {
  }

  /** The first matching filename event while a re-download is recorded gets
      the recorded name and clears the record, so a later event is renamed
      only through a pending name. */
  lemma RedownloadRenamedOnce(s: State, item: DownloadItem, next: DownloadItem)
    requires s.redownload.Some? && item.id != s.redownload.value.originalId && DeterminingFromNotebookLM(item)
    ensures var (t, handled) := AfterDetermining(s, item);
            && handled && t.redownload.None?
            && t.effects == s.effects + [Suggest(item.id, s.redownload.value.filename)]
            && t.pendingName == s.pendingName
    ensures var t := AfterDetermining(s, item).0;
            AfterDetermining(t, next).1 ==> Truthy(s.pendingName) && !s.batchMode
  {
  }

  /** Without a recorded re-download, a name is suggested only when a
      pending name is set and batch mode is off, and the pending name is
      then consumed; in batch mode the event only names the captured
      record and consumes the pending name. */
  lemma RenameNeedsPendingName(s: State, item: DownloadItem)
    requires s.redownload.None?
    ensures var (t, handled) := AfterDetermining(s, item);
            && (handled <==> Truthy(s.pendingName) && DeterminingFromNotebookLM(item) && !s.batchMode)
            && (handled ==> t.pendingName.None? && |t.effects| == |s.effects| + 1)
            && (!handled ==> t.effects == s.effects)
            && (s.batchMode ==> t.effects == s.effects && t.batchMode)
            && (s.batchMode && Truthy(s.pendingName) && DeterminingFromNotebookLM(item) ==> t.pendingName.None?)
            && (t.captured != s.captured ==> s.batchMode && s.captured.Some? && s.captured.value.downloadId == item.id)
  {
  }

  // ---------------------------------------------------------------------
  // The service worker's state

  class Background {
    var pendingDownloadName: Option<string>
    var pendingDownloadType: Option<string>
    var batchDownloadMode: bool
    var capturedDownload: Option<Captured>
    var interceptMode: bool
    var interceptedDownload: Option<Intercepted>
    var redownloadInfo: Option<Redownload>
    var inFlight: seq<InFlight>
    var timers: seq<Timer>
    var effects: seq<Effect>

    /** The value of all the fields. */
    function Snapshot(): State
      reads this
    {
      State(pendingDownloadName, pendingDownloadType, batchDownloadMode, capturedDownload,
            interceptMode, interceptedDownload, redownloadInfo, inFlight, timers, effects)
    }

    /** The state when the service worker starts. */
    constructor ()
      ensures Snapshot() == State(None, None, false, None, false, None, None, [], [], [])
    {
      pendingDownloadName, pendingDownloadType := None, None;
      batchDownloadMode, capturedDownload := false, None;
      interceptMode, interceptedDownload, redownloadInfo := false, None, None;
      inFlight, timers, effects := [], [], [];
    }

    method SetPendingDownload(name: Option<string>, artifactType: Option<string>)
      modifies this
      ensures Snapshot() == AfterSetPending(old(Snapshot()), name, artifactType)
    {
      pendingDownloadName := name;
      pendingDownloadType := artifactType;
      timers := timers + [ClearPending];
    }

    method StartInterceptDownload(name: Option<string>, artifactType: Option<string>)
      modifies this
      ensures Snapshot() == AfterStartIntercept(old(Snapshot()), name, artifactType)
    {
      interceptMode := true;
      interceptedDownload := None;
      pendingDownloadName := name;
      pendingDownloadType := artifactType;
      timers := timers + [ExpireIntercept];
    }

    method GetInterceptedDownload() returns (result: Option<Intercepted>)
      modifies this
      ensures (Snapshot(), result) == AfterGetIntercepted(old(Snapshot()))
    {
      if interceptedDownload.Some? {
        result := interceptedDownload;
        interceptedDownload := None;
      } else {
        result := None;
      }
    }

    method CancelIntercept()
      modifies this
      ensures Snapshot() == AfterCancelIntercept(old(Snapshot()))
    {
      if interceptMode {
        interceptMode := false;
      }
    }

    method StartBatchDownload()
      modifies this
      ensures Snapshot() == AfterStartBatch(old(Snapshot()))
    {
      if !batchDownloadMode {
        batchDownloadMode := true;
        capturedDownload := None;
      }
    }

    method EndBatchDownload()
      modifies this
      ensures Snapshot() == AfterEndBatch(old(Snapshot()))
    {
      batchDownloadMode := false;
      capturedDownload := None;
    }

    method GetCapturedDownload() returns (result: Option<Captured>)
      modifies this
      ensures (Snapshot(), result) == AfterGetCaptured(old(Snapshot()))
    {
      result := capturedDownload;
      if capturedDownload.Some? {
        capturedDownload := None;
      }
    }

    /** GET_BATCH_STATUS's `inProgress`. */
    method BatchInProgress() returns (inProgress: bool)
      ensures inProgress == Snapshot().batchMode
    {
      inProgress := batchDownloadMode;
    }

    /** DOWNLOAD_ARTIFACT (background.js:401-423): both branches download
      the URL under the sanitized name, asking where to save it. */
    method DownloadArtifact(url: string, filename: string)
      modifies this
      ensures Snapshot() == old(Snapshot()).(effects := old(effects) + [Download(url, Some(FileNames.ReplaceReserved(filename)), true)])
    {
      effects := effects + [Download(url, Some(FileNames.ReplaceReserved(filename)), true)];
    }

    method FireTimer(k: nat)
      requires k < |timers|
      modifies this
      ensures Snapshot() == AfterFire(old(Snapshot()), k)
    {
      var timer := timers[k];
      timers := timers[..k] + timers[k + 1..];
      match timer
      case ClearPending =>
        pendingDownloadName := None;
        pendingDownloadType := None;
      case ExpireIntercept =>
        if interceptMode {
          interceptMode := false;
        }
      case EraseOriginal(id) =>
        effects := effects + [Erase(id)];
    }

    method OnCreated(item: DownloadItem)
      modifies this
      ensures Snapshot() == AfterCreated(old(Snapshot()), item)
    {
      var isFromNotebookLM := CreatedFromNotebookLM(item);
      if interceptMode && isFromNotebookLM && item.url != "" {
        var extension := FileNames.CreatedExtension(item.filename, item.mime, pendingDownloadType);
        var base := if Truthy(pendingDownloadName) then pendingDownloadName.value else "download";
        var newFilename := FileNames.ReplaceReserved(base) + extension;
        InterceptDownload(item, newFilename);
        return;
      }
      if batchDownloadMode && isFromNotebookLM && item.url != "" {
        if capturedDownload.None? {
          capturedDownload := Some(Captured(item.url, item.id, item.mime, pendingDownloadName, pendingDownloadType, None));
        }
      }
    }

    /** The intercept branch of the created event once the new name is
        chosen: cancel the original and download it again. */
    method InterceptDownload(item: DownloadItem, newFilename: string)
      modifies this
      ensures Snapshot() == Intercepting(old(Snapshot()), item, newFilename)
    {
      interceptMode := false;
      redownloadInfo := Some(Redownload(newFilename, item.id));
      pendingDownloadName := None;
      pendingDownloadType := None;
      effects := effects + [Cancel(item.id), Download(item.url, None, false)];
      inFlight := inFlight + [InFlight(item.id, newFilename, item.url)];
    }

    method RedownloadStarted(k: nat, newId: nat)
      requires k < |inFlight|
      modifies this
      ensures Snapshot() == AfterRedownloadStarted(old(Snapshot()), k, newId)
    {
      var f := inFlight[k];
      inFlight := inFlight[..k] + inFlight[k + 1..];
      interceptedDownload := Some(Intercepted(f.originalId, newId, f.filename, f.url));
      timers := timers + [EraseOriginal(f.originalId)];
    }

    method OnDeterminingFilename(item: DownloadItem) returns (handled: bool)
      modifies this
      ensures (Snapshot(), handled) == AfterDetermining(old(Snapshot()), item)
    {
      var isFromNotebookLM := DeterminingFromNotebookLM(item);
      if redownloadInfo.Some? && item.id == redownloadInfo.value.originalId {
        return false;
      }
      if redownloadInfo.Some? && isFromNotebookLM {
        var filename := redownloadInfo.value.filename;
        redownloadInfo := None;
        effects := effects + [Suggest(item.id, filename)];
        return true;
      }
      if !Truthy(pendingDownloadName) {
        return false;
      }
      if isFromNotebookLM {
        var extension := FileNames.DeterminedExtension(item.filename, item.mime);
        var newFilename := FileNames.ReplaceReserved(pendingDownloadName.value) + extension;
        if batchDownloadMode {
          if capturedDownload.Some? && capturedDownload.value.downloadId == item.id {
            capturedDownload := Some(capturedDownload.value.(filename := Some(newFilename)));
          }
          pendingDownloadName := None;
          pendingDownloadType := None;
          return false;
        }
        pendingDownloadName := None;
        pendingDownloadType := None;
        effects := effects + [Suggest(item.id, newFilename)];
        return true;
      }
      return false;
    }
  }
}
