/** The bot (src/bot.js): the per-chat registry `activeDownloads`, the bot-wide
    URL cache `urlStorage`, and the handlers that drive them. `processDownload`
    runs across many awaits; here each await is a suspension point, a `Job`
    records where its run stands, and each `Resume...` method is the code that
    runs when the awaited call settles, up to the next await. The caller picks
    the order in which jobs and handlers run, which is how a cancel or a second
    click lands between two steps. Telegram calls become events appended to
    `outbox`; the downloads directory is the set `files`. */
module Bot {
  import opened Text
  import opened Callback
  import UrlCache
  import Utils
  import Downloader
  import Config

  /** What a Telegram message says, as far as the flow depends on it. */
  datatype Message =
    | Welcome(maxMb: int)
    | Help(maxMb: int)
    | ActiveCancelled
    | NothingToCancel
    | InvalidUrl
    | Analyzing
    | InfoUnavailable
    | VideoFound(title: string, author: string, duration: string, buttons: seq<string>)
    | SessionExpired
    | ChoiceCancelled
    | StoppedByUser
    | NoActiveDownload
    | AlreadyActive
    | StartingDownload(stopButton: string)
    | Progress(percent: int, stopButton: string)
    | DownloadingForConversion(stopButton: string)
    | ConvertingToMp3(stopButton: string)
    | FileTooLarge(size: int, limit: int)
    | UploadingNotice
    | DownloadFailed

  /** A call into the Telegram API. */
  datatype Event =
    | Send(chat: int, message: Message)
    | Edit(chat: int, messageId: int, message: Message)
    | DeleteMessage(chat: int, messageId: int)
    | Answer(chat: int, notice: Option<Message>)
    | SendVideo(chat: int, path: string)
    | SendAudio(chat: int, path: string)

  /** How a `downloadVideo` call settles: the file was written; the video could
      not be reached before any file was opened; or a stream failed and the
      partly written file was removed. */
  datatype VideoOutcome = Saved | Unreachable | StreamBroken

  /** Where a `processDownload` run is suspended, with the locals it still needs. */
  datatype Phase =
    | Starting                                  // editMessageText 'Starting download'
    | AwaitInfo                                 // getVideoInfo
    | AwaitVideo(name: string)                  // downloadVideo, mp4, with progress
    | AwaitConversionNotice(name: string)       // editMessageText 'Downloading video for conversion'
    | AwaitTempVideo(name: string)              // downloadVideo, the mp4 to convert
    | AwaitConversion(path: string)             // convertToMp3
    | AwaitStat(path: string)                   // fs.stat
    | AwaitUpload(path: string)                 // upload, deleteMessage, fs.remove
    | Finishing                                 // the last call before a return; `finally` follows
    | Done                                      // the `finally` has run

  /** Every resumption moves a run to a phase of lower rank, so each run ends. */
  function Rank(p: Phase): nat
  {
    match p
    case Starting => 8
    case AwaitInfo => 7
    case AwaitConversionNotice(_) => 6
    case AwaitVideo(_) => 5
    case AwaitTempVideo(_) => 5
    case AwaitConversion(_) => 4
    case AwaitStat(_) => 3
    case AwaitUpload(_) => 2
    case Finishing => 1
    case Done => 0
  }

  /** One `processDownload(chatId, url, format, messageId)` run. */
  datatype Job = Job(chat: int, url: string, format: Format, messageId: int, downloadId: string, phase: Phase)

  /** The buttons under the video summary (src/bot.js:213-223). */
  function Buttons(token: string): seq<string>
  {
    [ChoiceData(Mp4, token), ChoiceData(Mp3, token), CancelData(token)]
  }

  /** The duration line: `formatDuration` when the length is non-zero, else 'Unknown'.
      The bot calls its own `formatDuration` (src/bot.js:431-440), which differs from
      `Utils.FormatDuration` only by `seconds % 60` against `Math.floor(seconds % 60)`.
      The two agree on integers, and the length is always one (`parseInt(…) || 0`). */
  function DurationText(lengthSeconds: int): (r: string)
    ensures r == "Unknown" <==> lengthSeconds == 0
  {
    if lengthSeconds != 0 then Utils.FormatDuration(lengthSeconds) else "Unknown"
  }

  /** `videoInfo.title || 'video'`. */
  function Name(info: Downloader.VideoInfo): string
  {
    if info.title != [] then info.title else "video"
  }

  /** Where `downloadVideo(url, sanitizeFilename(name), 'mp4')` writes: the name
      is sanitised here and again inside `downloadVideo`. */
  function VideoPath(downloadDir: string, name: string): string
  {
    Downloader.OutputPath(downloadDir, Utils.SanitizeFilename(name), "mp4")
  }

  /** The video summary with its three buttons (src/bot.js:184-229). */
  function Summary(chat: int, url: string, info: Downloader.VideoInfo): Event
  {
    Send(chat, VideoFound(
      if info.title != [] then info.title else "Unknown Title",
      if info.authorName != [] then info.authorName else "Unknown Channel",
      DurationText(info.lengthSeconds),
      Buttons(Token(url))))
  }

  /** What `handleMessage` sends once the link is valid: 'Analyzing', then
      the failure edit, or deleting that message and the summary. */
  function AnalysisReplies(chat: int, url: string, loadingId: int, info: Option<Downloader.VideoInfo>): seq<Event>
  {
    if info.None? then [Send(chat, Analyzing), Edit(chat, loadingId, InfoUnavailable)]
    else [Send(chat, Analyzing), DeleteMessage(chat, loadingId), Summary(chat, url, info.value)]
  }

  /** What `handleMessage` sends for a text that is not a command. */
  function MessageReplies(chat: int, text: string, loadingId: int, info: Option<Downloader.VideoInfo>): seq<Event>
  {
    if !Utils.IsValidYouTubeUrl(text) then [Send(chat, InvalidUrl)] else AnalysisReplies(chat, text, loadingId, info)
  }

  /** The command replies to a message text, in handler order: `/start`,
      `/help`, then `/cancel`, whose reply says whether the chat had an entry. */
  function CommandReplies(chat: int, text: string, hadEntry: bool, maxMb: int): seq<Event>
  {
    (if Contains(text, "/start") then [Send(chat, Welcome(maxMb))] else [])
    + (if Contains(text, "/help") then [Send(chat, Help(maxMb))] else [])
    + (if Contains(text, "/cancel") then [Send(chat, if hadEntry then ActiveCancelled else NothingToCancel)] else [])
  }

  /** A positive length is shown as a duration text that reads back as that
      many seconds. */
  lemma DurationTextReadsBack(lengthSeconds: int)
    requires lengthSeconds > 0
    ensures Utils.ParseDuration(DurationText(lengthSeconds)) == Some(lengthSeconds)
  {
    Utils.DurationRoundTrip(lengthSeconds);
  }

  /** The progress edits a run makes for the progress values it is given while
      its chat has an entry: one for each multiple of ten, repeats included. */
  function ProgressEdits(job: Job, values: seq<int>): (r: seq<Event>)
    ensures |r| <= |values|
    ensures forall e :: e in r ==>
      e.Edit? && e.chat == job.chat && e.messageId == job.messageId && e.message.Progress? &&
      Utils.JsRem(e.message.percent, 10) == 0 && e.message.percent in values
    decreases |values|
  {
    if values == [] then []
    else
      var front := values[..|values| - 1];
      var v := values[|values| - 1];
      var before := ProgressEdits(job, front);
      assert forall e :: e in before ==> e.message.percent in values by {
        forall e | e in before ensures e.message.percent in values {
          var k :| 0 <= k < |front| && front[k] == e.message.percent;
          assert values[k] == front[k];
        }
      }
      if Utils.JsRem(v, 10) == 0 then before + [Edit(job.chat, job.messageId, Progress(v, StopData(job.downloadId)))]
      else before
  }

  /** The same multiple of ten reported twice is shown twice. */
  lemma RepeatedProgressEditedTwice(job: Job, v: int)
    requires Utils.JsRem(v, 10) == 0
    ensures |ProgressEdits(job, [v, v])| == 2
  {
    assert [v, v][..1] == [v];
    assert [v][..0] == [];
  }

  /** `\`${chatId}_${now}\`` differs for different times within one chat. */
  lemma DownloadIdDistinct(chat: int, t1: int, t2: int)
    requires t1 != t2
    ensures DownloadId(chat, t1) != DownloadId(chat, t2)
  {
    var c := IntToString(chat);
    if DownloadId(chat, t1) == DownloadId(chat, t2) {
      var a, b := IntToString(t1), IntToString(t2);
      assert (c + "_" + a)[|c| + 1..] == a;
      assert (c + "_" + b)[|c| + 1..] == b;
      ParseIntOfIntToString(t1);
      ParseIntOfIntToString(t2);
      assert false;
    }
  }

  class TelegramBot {
    /** chat id to the id of its registered download. */
    var activeDownloads: map<int, string>
    /** URL token to URL, shared by all chats. */
    var urlStorage: UrlCache.Cache
    /** The paths present in the downloads directory. */
    var files: set<string>
    /** The Telegram calls made, in order. */
    var outbox: seq<Event>
    const downloadDir: string
    const maxFileSize: int

    ghost predicate Valid()
      reads this
    {
      UrlCache.Valid(urlStorage) && UrlCache.Size(urlStorage) <= UrlCache.Capacity
    }

    /** The constructor (src/bot.js:13-23) with `DOWNLOAD_DIR` and `MAX_FILE_SIZE_MB`. */
    constructor(dirEnv: Option<string>, maxFileSizeMb: Option<string>, existing: set<string>)
      ensures Valid()
      ensures activeDownloads == map[] && urlStorage == UrlCache.Empty()
      ensures files == existing && outbox == []
      ensures downloadDir == if dirEnv.Some? && dirEnv.value != [] then dirEnv.value else "./downloads"
      ensures maxFileSize == Config.MaxFileSize(maxFileSizeMb)
    {
      downloadDir := if dirEnv.Some? && dirEnv.value != [] then dirEnv.value else "./downloads";
      maxFileSize := Config.MaxFileSize(maxFileSizeMb);
      activeDownloads := map[];
      urlStorage := UrlCache.Empty();
      files := existing;
      outbox := [];
    }

    // -------------------------------------------------------------------------
    // Dispatch (src/bot.js:37-68)

    /** An incoming message. Each command pattern matches anywhere in the text,
        so every command it contains runs; a non-empty text that does not start
        with '/' also goes to `handleMessage`, so "see /cancel" both cancels and
        is checked as a URL. Each handler here runs to completion, the message
        handler first. */
    method OnMessage(chat: int, text: Option<string>, loadingId: int, info: Option<Downloader.VideoInfo>)
      requires Valid()
      modifies this
      ensures Valid()
      ensures files == old(files)
      ensures activeDownloads ==
        if text.Some? && Contains(text.value, "/cancel") then old(activeDownloads) - {chat} else old(activeDownloads)
      ensures urlStorage ==
        if text.Some? && text.value != [] && text.value[0] != '/' && Utils.IsValidYouTubeUrl(text.value) && info.Some?
        then UrlCache.Put(old(urlStorage), Token(text.value), text.value)
        else old(urlStorage)
      ensures text.None? ==> outbox == old(outbox)
      ensures text.Some? ==>
        outbox == old(outbox)
          + (if text.value != [] && text.value[0] != '/' then MessageReplies(chat, text.value, loadingId, info) else [])
          + CommandReplies(chat, text.value, chat in old(activeDownloads), maxFileSize / 1048576)
    {
      if text.None? {
        return;
      }
      var t := text.value;
      if t != [] && t[0] != '/' {
        HandleMessage(chat, t, loadingId, info);
      }
      RunCommands(chat, t);
    }

    /** The three command handlers for one text, each run when its pattern
        occurs anywhere in it. */
    method RunCommands(chat: int, text: string)
      modifies this
      ensures outbox == old(outbox) + CommandReplies(chat, text, chat in old(activeDownloads), maxFileSize / 1048576)
      ensures activeDownloads == if Contains(text, "/cancel") then old(activeDownloads) - {chat} else old(activeDownloads)
      ensures urlStorage == old(urlStorage) && files == old(files)
    {
      ghost var hadEntry := chat in activeDownloads;
      ghost var start := outbox;
      if Contains(text, "/start") {
        HandleStart(chat);
      }
      if Contains(text, "/help") {
        HandleHelp(chat);
      }
      if Contains(text, "/cancel") {
        HandleCancel(chat);
      }
      assert outbox == start + CommandReplies(chat, text, hadEntry, maxFileSize / 1048576);
    }

    /** `/start` (src/bot.js:70-95): the welcome text quotes the size limit in whole MB, rounded down. */
    method HandleStart(chat: int)
      modifies this
      ensures outbox == old(outbox) + [Send(chat, Welcome(maxFileSize / 1048576))]
      ensures activeDownloads == old(activeDownloads) && urlStorage == old(urlStorage) && files == old(files)
    {
      outbox := outbox + [Send(chat, Welcome(maxFileSize / 1048576))];
    }

    /** `/help` (src/bot.js:97-128). */
    method HandleHelp(chat: int)
      modifies this
      ensures outbox == old(outbox) + [Send(chat, Help(maxFileSize / 1048576))]
      ensures activeDownloads == old(activeDownloads) && urlStorage == old(urlStorage) && files == old(files)
    {
      outbox := outbox + [Send(chat, Help(maxFileSize / 1048576))];
    }

    // -------------------------------------------------------------------------
    // handleCancel (src/bot.js:130-139)

    /** `/cancel`: drops the chat's entry, whichever download it names. */
    method HandleCancel(chat: int)
      modifies this
      ensures activeDownloads == old(activeDownloads) - {chat}
      ensures outbox == old(outbox) + [Send(chat, if chat in old(activeDownloads) then ActiveCancelled else NothingToCancel)]
      ensures urlStorage == old(urlStorage) && files == old(files)
    {
      if chat in activeDownloads {
        activeDownloads := activeDownloads - {chat};
        outbox := outbox + [Send(chat, ActiveCancelled)];
      } else {
        outbox := outbox + [Send(chat, NothingToCancel)];
      }
    }

    // -------------------------------------------------------------------------
    // handleMessage and showVideoInfo (src/bot.js:141-229)

    /** A text that is not a command. `loadingId` is the id of the 'Analyzing'
        message and `info` how `getVideoInfo(text)` settled. */
    method HandleMessage(chat: int, text: string, loadingId: int, info: Option<Downloader.VideoInfo>)
      requires Valid()
      modifies this
      ensures Valid()
      ensures activeDownloads == old(activeDownloads) && files == old(files)
      ensures outbox == old(outbox) + MessageReplies(chat, text, loadingId, info)
      ensures urlStorage ==
        if Utils.IsValidYouTubeUrl(text) && info.Some? then UrlCache.Put(old(urlStorage), Token(text), text)
        else old(urlStorage)
      ensures Utils.IsValidYouTubeUrl(text) && info.Some? ==> UrlCache.Get(urlStorage, Token(text)) == Some(text)
    {
      if !Utils.IsValidYouTubeUrl(text) {
        outbox := outbox + [Send(chat, InvalidUrl)];
        return;
      }
      Analyze(chat, text, loadingId, info);
    }

    /** The part of `handleMessage` after the link check (src/bot.js:154-181). */
    method Analyze(chat: int, url: string, loadingId: int, info: Option<Downloader.VideoInfo>)
      requires Valid()
      modifies this
      ensures Valid()
      ensures activeDownloads == old(activeDownloads) && files == old(files)
      ensures outbox == old(outbox) + AnalysisReplies(chat, url, loadingId, info)
      ensures urlStorage == if info.Some? then UrlCache.Put(old(urlStorage), Token(url), url) else old(urlStorage)
      ensures info.Some? ==> UrlCache.Get(urlStorage, Token(url)) == Some(url)
    {
      if info.None? {
        outbox := outbox + [Send(chat, Analyzing), Edit(chat, loadingId, InfoUnavailable)];
        return;
      }
      outbox := outbox + [Send(chat, Analyzing), DeleteMessage(chat, loadingId)];
      ShowVideoInfo(chat, url, info.value);
    }

    /** Stores the URL under its token, trims the cache, and offers the buttons. */
    method ShowVideoInfo(chat: int, url: string, info: Downloader.VideoInfo)
      requires Valid()
      modifies this
      ensures Valid()
      ensures urlStorage == UrlCache.Put(old(urlStorage), Token(url), url)
      ensures UrlCache.Get(urlStorage, Token(url)) == Some(url)
      ensures activeDownloads == old(activeDownloads) && files == old(files)
      ensures outbox == old(outbox) + [Summary(chat, url, info)]
    {
      var duration := DurationText(info.lengthSeconds);
      var title := if info.title != [] then info.title else "Unknown Title";
      var author := if info.authorName != [] then info.authorName else "Unknown Channel";
      var token := Token(url);
      ghost var before := urlStorage;
      UrlCache.PutBounded(before, token, url);
      UrlCache.PutThenGet(before, token, url);
      urlStorage := UrlCache.Set(urlStorage, token, url);
      if UrlCache.Size(urlStorage) > UrlCache.Capacity {
        EvictOldest();
      }
      outbox := outbox + [Send(chat, VideoFound(title, author, duration, Buttons(token)))];
    }

    /** `entries.slice(0, entries.length - 50).forEach(([key]) => delete(key))`. */
    method EvictOldest()
      requires UrlCache.Valid(urlStorage) && |urlStorage.order| >= UrlCache.Keep
      modifies this
      ensures urlStorage == UrlCache.Evicted(old(urlStorage))
      ensures activeDownloads == old(activeDownloads) && files == old(files) && outbox == old(outbox)
    {
      ghost var c := urlStorage;
      var entries := urlStorage.order;
      var n := |entries| - UrlCache.Keep;
      var i := 0;
      assert c.order[..0] == [];
      assert UrlCache.Dropped(c, 0) == c;
      while i < n
        invariant i <= n
        invariant urlStorage == UrlCache.Dropped(c, i)
        invariant activeDownloads == old(activeDownloads) && files == old(files) && outbox == old(outbox)
      {
        DeleteOldestEntry(c, i, entries[i]);
        i := i + 1;
      }
      UrlCache.DroppedOldEntries(c);
    }

    /** One `delete(key)` of that loop: the `i`-th oldest key of `c` goes. */
    method DeleteOldestEntry(ghost c: UrlCache.Cache, i: nat, key: string)
      requires UrlCache.Valid(c) && i < |c.order| && key == c.order[i]
      requires urlStorage == UrlCache.Dropped(c, i)
      modifies this
      ensures urlStorage == UrlCache.Dropped(c, i + 1)
      ensures activeDownloads == old(activeDownloads) && files == old(files) && outbox == old(outbox)
    {
      UrlCache.DropOne(c, i);
      urlStorage := UrlCache.Delete(urlStorage, key);
    }

    // -------------------------------------------------------------------------
    // handleCallbackQuery (src/bot.js:231-282)

    /** A button press on message `messageId`; a format button whose token is
        still cached starts a `processDownload` run, returned as a job. */
    method HandleCallbackQuery(chat: int, messageId: int, data: string, now: int) returns (job: Option<Job>)
      modifies this
      ensures urlStorage == old(urlStorage) && files == old(files)
      ensures |outbox| > |old(outbox)| && outbox[|old(outbox)|] == Answer(chat, None)
      ensures Parse(data).Choose? && UrlCache.Get(urlStorage, Parse(data).token) in {None, Some([])} ==>
        job.None? && activeDownloads == old(activeDownloads) &&
        outbox == old(outbox) + [Answer(chat, None), Edit(chat, messageId, SessionExpired)]
      ensures Parse(data).Choose? && UrlCache.Get(urlStorage, Parse(data).token) !in {None, Some([])} ==>
        job.Some? && job.value.url == UrlCache.Get(urlStorage, Parse(data).token).value &&
        job.value.format == Parse(data).format && job.value.downloadId == DownloadId(chat, now) &&
        outbox == old(outbox) + [Answer(chat, None),
          if chat in old(activeDownloads) then Send(chat, AlreadyActive)
          else Edit(chat, messageId, StartingDownload(StopData(DownloadId(chat, now))))] &&
        job.value.phase == (if chat in old(activeDownloads) then Finishing else Starting) &&
        (chat in old(activeDownloads) ==> activeDownloads == old(activeDownloads)) &&
        (chat !in old(activeDownloads) ==> activeDownloads == old(activeDownloads)[chat := DownloadId(chat, now)])
      ensures Parse(data).CancelChoice? ==>
        job.None? && activeDownloads == old(activeDownloads) - {chat} &&
        outbox == old(outbox) + [Answer(chat, None), Edit(chat, messageId, ChoiceCancelled)]
      ensures Parse(data).Stop? ==>
        job.None? && activeDownloads == old(activeDownloads) - {chat} &&
        outbox == old(outbox) + [Answer(chat, None),
          if chat in old(activeDownloads) then Edit(chat, messageId, StoppedByUser) else Answer(chat, Some(NoActiveDownload))]
      ensures Parse(data).Ignore? ==>
        job.None? && activeDownloads == old(activeDownloads) && outbox == old(outbox) + [Answer(chat, None)]
    {
      outbox := outbox + [Answer(chat, None)];
      ghost var answered := outbox;
      job := None;
      match Parse(data) {
      case Choose(format, token) =>
        var url := UrlCache.Get(urlStorage, token);
        if url.None? || url.value == [] {
          outbox := outbox + [Edit(chat, messageId, SessionExpired)];
          return;
        }
        var started := StartDownload(chat, url.value, format, messageId, now);
        job := Some(started);
      case CancelChoice(_) =>
        if chat in activeDownloads {
          activeDownloads := activeDownloads - {chat};
        }
        outbox := outbox + [Edit(chat, messageId, ChoiceCancelled)];
      case Stop(_) =>
        if chat in activeDownloads {
          activeDownloads := activeDownloads - {chat};
          outbox := outbox + [Edit(chat, messageId, StoppedByUser)];
        } else {
          outbox := outbox + [Answer(chat, Some(NoActiveDownload))];
        }
      case Ignore =>
      }
      assert outbox[|old(outbox)|] == answered[|old(outbox)|];
    }

    // -------------------------------------------------------------------------
    // processDownload (src/bot.js:284-429)

    /** The synchronous start of a run: a chat that already has an entry gets
        the 'already active' reply and the run heads for its `finally`;
        otherwise the entry `chatId_now` is registered and the start message
        with the stop button is shown. */
    method StartDownload(chat: int, url: string, format: Format, messageId: int, now: int) returns (job: Job)
      modifies this
      ensures job == Job(chat, url, format, messageId, DownloadId(chat, now),
        if chat in old(activeDownloads) then Finishing else Starting)
      ensures chat in old(activeDownloads) ==>
        activeDownloads == old(activeDownloads) && outbox == old(outbox) + [Send(chat, AlreadyActive)]
      ensures chat !in old(activeDownloads) ==>
        activeDownloads == old(activeDownloads)[chat := DownloadId(chat, now)] &&
        outbox == old(outbox) + [Edit(chat, messageId, StartingDownload(StopData(DownloadId(chat, now))))]
      ensures urlStorage == old(urlStorage) && files == old(files)
    {
      var downloadId := DownloadId(chat, now);
      if chat in activeDownloads {
        outbox := outbox + [Send(chat, AlreadyActive)];
        job := Job(chat, url, format, messageId, downloadId, Finishing);
        return;
      }
      activeDownloads := activeDownloads[chat := downloadId];
      outbox := outbox + [Edit(chat, messageId, StartingDownload(StopData(downloadId)))];
      job := Job(chat, url, format, messageId, downloadId, Starting);
    }

    /** After the start message: the first checkpoint. A run whose chat has no
        entry returns at once (its `finally` deletes nothing); otherwise it asks
        for the video info. Only presence is tested, not whose id the entry holds. */
    method ResumeStarting(job: Job) returns (next: Job)
      requires job.phase.Starting?
      ensures job.chat !in activeDownloads ==> next == job.(phase := Done)
      ensures job.chat in activeDownloads ==> next == job.(phase := AwaitInfo)
      ensures Rank(next.phase) < Rank(job.phase)
    {
      if job.chat !in activeDownloads {
        return job.(phase := Done);
      }
      next := job.(phase := AwaitInfo);
    }

    /** `getVideoInfo` settled. `null` makes `videoInfo.title` throw, which ends
        in the failure message; otherwise the mp4 download starts, or the
        conversion notice is shown for mp3. */
    method ResumeInfo(job: Job, info: Option<Downloader.VideoInfo>) returns (next: Job)
      requires job.phase.AwaitInfo?
      modifies this
      ensures activeDownloads == old(activeDownloads) && urlStorage == old(urlStorage) && files == old(files)
      ensures info.None? ==>
        next == job.(phase := Finishing) &&
        outbox == old(outbox) + [Edit(job.chat, job.messageId, DownloadFailed)]
      ensures info.Some? && job.format.Mp4? ==>
        next == job.(phase := AwaitVideo(Name(info.value))) && outbox == old(outbox)
      ensures info.Some? && job.format.Mp3? ==>
        next == job.(phase := AwaitConversionNotice(Name(info.value))) &&
        outbox == old(outbox) + [Edit(job.chat, job.messageId, DownloadingForConversion(StopData(job.downloadId)))]
      ensures Rank(next.phase) < Rank(job.phase)
    {
      if info.None? {
        outbox := outbox + [Edit(job.chat, job.messageId, DownloadFailed)];
        return job.(phase := Finishing);
      }
      var name := Name(info.value);
      if job.format.Mp4? {
        next := job.(phase := AwaitVideo(name));
      } else {
        outbox := outbox + [Edit(job.chat, job.messageId, DownloadingForConversion(StopData(job.downloadId)))];
        next := job.(phase := AwaitConversionNotice(name));
      }
    }

    /** The mp4 progress callback (src/bot.js:323-337): nothing once the chat's
        entry is gone, otherwise an edit for every multiple of ten, repeats
        included. */
    method ProgressTick(job: Job, progress: int)
      requires job.phase.AwaitVideo?
      modifies this
      ensures activeDownloads == old(activeDownloads) && urlStorage == old(urlStorage) && files == old(files)
      ensures job.chat in activeDownloads && Utils.JsRem(progress, 10) == 0 ==>
        outbox == old(outbox) + [Edit(job.chat, job.messageId, Progress(progress, StopData(job.downloadId)))]
      ensures !(job.chat in activeDownloads && Utils.JsRem(progress, 10) == 0) ==> outbox == old(outbox)
    {
      if job.chat !in activeDownloads {
        return;
      }
      if Utils.JsRem(progress, 10) == 0 {
        outbox := outbox + [Edit(job.chat, job.messageId, Progress(progress, StopData(job.downloadId)))];
      }
    }

    /** A run of progress callbacks during one mp4 download with no other
        handler in between. */
    method DeliverProgress(job: Job, values: seq<int>)
      requires job.phase.AwaitVideo?
      modifies this
      ensures activeDownloads == old(activeDownloads) && urlStorage == old(urlStorage) && files == old(files)
      ensures outbox == old(outbox) + (if job.chat in activeDownloads then ProgressEdits(job, values) else [])
    {
      var i := 0;
      while i < |values|
        invariant i <= |values|
        invariant activeDownloads == old(activeDownloads) && urlStorage == old(urlStorage) && files == old(files)
        invariant outbox == old(outbox) + (if job.chat in activeDownloads then ProgressEdits(job, values[..i]) else [])
      {
        ProgressTick(job, values[i]);
        assert values[..i + 1][..i] == values[..i];
        i := i + 1;
      }
      assert values[..i] == values;
    }

    /** The last checkpoint (src/bot.js:374-381) and, past it, the call to `fs.stat`. */
    method FinalCheck(job: Job, path: string) returns (next: Job)
      modifies this
      ensures activeDownloads == old(activeDownloads) && urlStorage == old(urlStorage) && outbox == old(outbox)
      ensures job.chat !in activeDownloads ==> next == job.(phase := Finishing) && files == old(files) - {path}
      ensures job.chat in activeDownloads ==> next == job.(phase := AwaitStat(path)) && files == old(files)
    {
      if job.chat !in activeDownloads {
        files := files - {path};
        return job.(phase := Finishing);
      }
      next := job.(phase := AwaitStat(path));
    }

    /** The mp4 download settled. A saved file goes through the last checkpoint,
        which removes it when the chat's entry is gone; a failure ends in the
        failure message. */
    method ResumeVideo(job: Job, outcome: VideoOutcome) returns (next: Job)
      requires job.phase.AwaitVideo?
      modifies this
      ensures activeDownloads == old(activeDownloads) && urlStorage == old(urlStorage)
      ensures outcome.Saved? && job.chat in activeDownloads ==>
        next == job.(phase := AwaitStat(VideoPath(downloadDir, job.phase.name))) &&
        files == old(files) + {VideoPath(downloadDir, job.phase.name)} && outbox == old(outbox)
      ensures outcome.Saved? && job.chat !in activeDownloads ==>
        next == job.(phase := Finishing) && files == old(files) - {VideoPath(downloadDir, job.phase.name)} &&
        outbox == old(outbox)
      ensures !outcome.Saved? ==>
        next == job.(phase := Finishing) &&
        files == (if outcome.StreamBroken? then old(files) - {VideoPath(downloadDir, job.phase.name)} else old(files)) &&
        outbox == old(outbox) + [Edit(job.chat, job.messageId, DownloadFailed)]
      ensures next.phase.AwaitStat? || next.phase.Finishing?
    {
      next := SettleVideo(job, VideoPath(downloadDir, job.phase.name), outcome);
    }

    /** `ResumeVideo` for the file at `path`. */
    method SettleVideo(job: Job, path: string, outcome: VideoOutcome) returns (next: Job)
      modifies this
      ensures activeDownloads == old(activeDownloads) && urlStorage == old(urlStorage)
      ensures outcome.Saved? && job.chat in activeDownloads ==>
        next == job.(phase := AwaitStat(path)) && files == old(files) + {path} && outbox == old(outbox)
      ensures outcome.Saved? && job.chat !in activeDownloads ==>
        next == job.(phase := Finishing) && files == old(files) - {path} && outbox == old(outbox)
      ensures !outcome.Saved? ==>
        next == job.(phase := Finishing) &&
        files == (if outcome.StreamBroken? then old(files) - {path} else old(files)) &&
        outbox == old(outbox) + [Edit(job.chat, job.messageId, DownloadFailed)]
    {
      next := Settle(job, path, outcome);
      if outcome.Saved? {
        next := FinalCheck(job, path);
      }
    }

    /** How a `downloadVideo` call settles on disk: a saved file is added, a
        broken stream's file removed; a failure shows the failure message. */
    method Settle(job: Job, path: string, outcome: VideoOutcome) returns (next: Job)
      modifies this
      ensures activeDownloads == old(activeDownloads) && urlStorage == old(urlStorage)
      ensures outcome.Saved? ==> files == old(files) + {path} && outbox == old(outbox)
      ensures outcome.Unreachable? ==> files == old(files)
      ensures outcome.StreamBroken? ==> files == old(files) - {path}
      ensures !outcome.Saved? ==> outbox == old(outbox) + [Edit(job.chat, job.messageId, DownloadFailed)]
      ensures next == job.(phase := Finishing)
    {
      next := job.(phase := Finishing);
      match outcome
      case Saved =>
        files := files + {path};
      case Unreachable =>
        outbox := outbox + [Edit(job.chat, job.messageId, DownloadFailed)];
      case StreamBroken =>
        files := files - {path};
        outbox := outbox + [Edit(job.chat, job.messageId, DownloadFailed)];
    }

    /** mp3, after the conversion notice: the checkpoint, then the download of
        the video to convert. A run whose chat has no entry returns at once. */
    method ResumeConversionNotice(job: Job) returns (next: Job)
      requires job.phase.AwaitConversionNotice?
      ensures job.chat !in activeDownloads ==> next == job.(phase := Done)
      ensures job.chat in activeDownloads ==> next == job.(phase := AwaitTempVideo(job.phase.name))
      ensures Rank(next.phase) < Rank(job.phase)
    {
      if job.chat !in activeDownloads {
        return job.(phase := Done);
      }
      next := job.(phase := AwaitTempVideo(job.phase.name));
    }

    /** mp3, the video to convert settled: the checkpoint before conversion
        removes it when the chat's entry is gone; otherwise the conversion
        notice is shown and `convertToMp3` starts. */
    method ResumeTempVideo(job: Job, outcome: VideoOutcome) returns (next: Job)
      requires job.phase.AwaitTempVideo?
      modifies this
      ensures activeDownloads == old(activeDownloads) && urlStorage == old(urlStorage)
      ensures outcome.Saved? && job.chat in activeDownloads ==>
        next == job.(phase := AwaitConversion(VideoPath(downloadDir, job.phase.name))) &&
        files == old(files) + {VideoPath(downloadDir, job.phase.name)} &&
        outbox == old(outbox) + [Edit(job.chat, job.messageId, ConvertingToMp3(StopData(job.downloadId)))]
      ensures outcome.Saved? && job.chat !in activeDownloads ==>
        next == job.(phase := Finishing) && files == old(files) - {VideoPath(downloadDir, job.phase.name)} &&
        outbox == old(outbox)
      ensures !outcome.Saved? ==>
        next == job.(phase := Finishing) &&
        files == (if outcome.StreamBroken? then old(files) - {VideoPath(downloadDir, job.phase.name)} else old(files)) &&
        outbox == old(outbox) + [Edit(job.chat, job.messageId, DownloadFailed)]
      ensures next.phase.AwaitConversion? || next.phase.Finishing?
    {
      next := SettleTempVideo(job, VideoPath(downloadDir, job.phase.name), outcome);
    }

    /** `ResumeTempVideo` for the file at `path`. */
    method SettleTempVideo(job: Job, path: string, outcome: VideoOutcome) returns (next: Job)
      modifies this
      ensures activeDownloads == old(activeDownloads) && urlStorage == old(urlStorage)
      ensures outcome.Saved? && job.chat in activeDownloads ==>
        next == job.(phase := AwaitConversion(path)) && files == old(files) + {path} &&
        outbox == old(outbox) + [Edit(job.chat, job.messageId, ConvertingToMp3(StopData(job.downloadId)))]
      ensures outcome.Saved? && job.chat !in activeDownloads ==>
        next == job.(phase := Finishing) && files == old(files) - {path} && outbox == old(outbox)
      ensures !outcome.Saved? ==>
        next == job.(phase := Finishing) &&
        files == (if outcome.StreamBroken? then old(files) - {path} else old(files)) &&
        outbox == old(outbox) + [Edit(job.chat, job.messageId, DownloadFailed)]
    {
      next := Settle(job, path, outcome);
      if outcome.Saved? {
        next := ConversionCheck(job, path);
      }
    }

    /** The checkpoint before conversion (src/bot.js:355-359) and, past it, the
        conversion notice and the call to `convertToMp3`. */
    method ConversionCheck(job: Job, path: string) returns (next: Job)
      modifies this
      ensures activeDownloads == old(activeDownloads) && urlStorage == old(urlStorage)
      ensures job.chat !in activeDownloads ==>
        next == job.(phase := Finishing) && files == old(files) - {path} && outbox == old(outbox)
      ensures job.chat in activeDownloads ==>
        next == job.(phase := AwaitConversion(path)) && files == old(files) &&
        outbox == old(outbox) + [Edit(job.chat, job.messageId, ConvertingToMp3(StopData(job.downloadId)))]
    {
      if job.chat !in activeDownloads {
        files := files - {path};
        return job.(phase := Finishing);
      }
      outbox := outbox + [Edit(job.chat, job.messageId, ConvertingToMp3(StopData(job.downloadId)))];
      next := job.(phase := AwaitConversion(path));
    }

    /** `convertToMp3` settled with the path of the mp3, or threw. On success
        the intermediate video is removed and the last checkpoint follows; when
        the conversion throws, the intermediate video stays on disk. */
    method ResumeConversion(job: Job, mp3: Option<string>) returns (next: Job)
      requires job.phase.AwaitConversion?
      modifies this
      ensures activeDownloads == old(activeDownloads) && urlStorage == old(urlStorage)
      ensures mp3.None? ==>
        next == job.(phase := Finishing) && files == old(files) &&
        outbox == old(outbox) + [Edit(job.chat, job.messageId, DownloadFailed)]
      ensures mp3.Some? && job.chat in activeDownloads ==>
        next == job.(phase := AwaitStat(mp3.value)) &&
        files == old(files) + {mp3.value} - {job.phase.path} && outbox == old(outbox)
      ensures mp3.Some? && job.chat !in activeDownloads ==>
        next == job.(phase := Finishing) &&
        files == old(files) + {mp3.value} - {job.phase.path} - {mp3.value} && outbox == old(outbox)
      ensures Rank(next.phase) < Rank(job.phase)
    {
      if mp3.None? {
        outbox := outbox + [Edit(job.chat, job.messageId, DownloadFailed)];
        return job.(phase := Finishing);
      }
      files := files + {mp3.value};
      files := files - {job.phase.path};
      next := FinalCheck(job, mp3.value);
    }

    /** `fs.stat` settled. A file larger than `maxFileSize` is reported, removed
        and never sent; a file of exactly `maxFileSize` bytes goes on to upload. */
    method ResumeStat(job: Job, size: Option<int>) returns (next: Job)
      requires job.phase.AwaitStat?
      modifies this
      ensures activeDownloads == old(activeDownloads) && urlStorage == old(urlStorage)
      ensures size.None? ==>
        next == job.(phase := Finishing) && files == old(files) &&
        outbox == old(outbox) + [Edit(job.chat, job.messageId, DownloadFailed)]
      ensures size.Some? && size.value > maxFileSize ==>
        next == job.(phase := Finishing) && files == old(files) - {job.phase.path} &&
        outbox == old(outbox) + [Edit(job.chat, job.messageId, FileTooLarge(size.value, maxFileSize))]
      ensures size.Some? && size.value <= maxFileSize ==>
        next == job.(phase := AwaitUpload(job.phase.path)) && files == old(files) &&
        outbox == old(outbox) + [Edit(job.chat, job.messageId, UploadingNotice)]
      ensures Rank(next.phase) < Rank(job.phase)
    {
      if size.None? {
        outbox := outbox + [Edit(job.chat, job.messageId, DownloadFailed)];
        return job.(phase := Finishing);
      }
      if size.value > maxFileSize {
        outbox := outbox + [Edit(job.chat, job.messageId, FileTooLarge(size.value, maxFileSize))];
        files := files - {job.phase.path};
        return job.(phase := Finishing);
      }
      outbox := outbox + [Edit(job.chat, job.messageId, UploadingNotice)];
      next := job.(phase := AwaitUpload(job.phase.path));
    }

    /** The upload: `sendVideo` for mp4, `sendAudio` for mp3, then the progress
        message is deleted and the file removed. No checkpoint guards it. */
    method ResumeUpload(job: Job) returns (next: Job)
      requires job.phase.AwaitUpload?
      modifies this
      ensures activeDownloads == old(activeDownloads) && urlStorage == old(urlStorage)
      ensures next == job.(phase := Finishing)
      ensures files == old(files) - {job.phase.path}
      ensures outbox == old(outbox) + [
        if job.format.Mp4? then SendVideo(job.chat, job.phase.path) else SendAudio(job.chat, job.phase.path),
        DeleteMessage(job.chat, job.messageId)]
      ensures Rank(next.phase) < Rank(job.phase)
    {
      var path := job.phase.path;
      if job.format.Mp4? {
        outbox := outbox + [SendVideo(job.chat, path)];
      } else {
        outbox := outbox + [SendAudio(job.chat, path)];
      }
      outbox := outbox + [DeleteMessage(job.chat, job.messageId)];
      files := files - {path};
      next := job.(phase := Finishing);
    }

    /** The last awaited call settled and the run returns: the `finally` deletes
        the chat's entry, whichever run registered it. */
    method Finish(job: Job) returns (next: Job)
      requires job.phase.Finishing?
      modifies this
      ensures activeDownloads == old(activeDownloads) - {job.chat}
      ensures urlStorage == old(urlStorage) && files == old(files) && outbox == old(outbox)
      ensures next == job.(phase := Done)
    {
      activeDownloads := activeDownloads - {job.chat};
      next := job.(phase := Done);
    }

    // -------------------------------------------------------------------------
    // Interleavings

    /** A second format click while a run is registered: it is refused, yet its
        `finally` deletes the first run's entry, so the first run stops at its
        next checkpoint without ever fetching the video. */
    method SecondClickScenario(chat: int, url: string, m1: int, m2: int, t1: int, t2: int)
      returns (first: Job, second: Job)
      requires chat !in activeDownloads
      modifies this
      ensures first.phase.Done? && second.phase.Done?
      ensures chat !in activeDownloads
      ensures outbox == old(outbox) + [
        Edit(chat, m1, StartingDownload(StopData(DownloadId(chat, t1)))),
        Send(chat, AlreadyActive)]
    {
      first := StartDownload(chat, url, Mp4, m1, t1);
      second := StartDownload(chat, url, Mp3, m2, t2);
      second := Finish(second);
      first := ResumeStarting(first);
    }

    /** A cancel followed by a new click: the old run's checkpoint finds the new
        run's entry and carries on, so two runs proceed for one chat. */
    method StaleRunScenario(chat: int, url: string, m: int, t1: int, t2: int)
      returns (stale: Job, current: Job)
      requires chat !in activeDownloads && t1 != t2
      modifies this
      ensures stale.phase.AwaitInfo? && current.phase.Starting?
      ensures chat in activeDownloads && activeDownloads[chat] == current.downloadId != stale.downloadId
    {
      stale := StartDownload(chat, url, Mp4, m, t1);
      HandleCancel(chat);
      current := StartDownload(chat, url, Mp4, m, t2);
      DownloadIdDistinct(chat, t1, t2);
      stale := ResumeStarting(stale);
    }

    /** The buttons shown for a URL lead back to it: pressing the mp4 button
        right after the prompt starts a run for that URL and chat. */
    method ChooseAfterPromptScenario(chat: int, url: string, info: Downloader.VideoInfo, m: int, now: int)
      returns (job: Option<Job>)
      requires Valid() && url != [] && chat !in activeDownloads
      modifies this
      ensures job.Some? && job.value.url == url && job.value.format == Mp4 && job.value.phase.Starting?
      ensures chat in activeDownloads && activeDownloads[chat] == DownloadId(chat, now)
    {
      ShowVideoInfo(chat, url, info);
      var token := Token(url);
      var data := ChoiceData(Mp4, token);
      PromptButtonsRoundTrip(url, Mp4);
      assert Parse(data) == Choose(Mp4, token);
      assert UrlCache.Get(urlStorage, token) == Some(url);
      job := HandleCallbackQuery(chat, m, data, now);
    }

    /** A stop press during the upload deletes the entry but does not stop the
        file from being sent. */
    method LateStopScenario(job: Job, size: int, m: int) returns (next: Job)
      requires job.phase.AwaitStat? && size <= maxFileSize && job.format.Mp4?
      modifies this
      ensures next.phase.Finishing?
      ensures job.chat !in activeDownloads
      ensures SendVideo(job.chat, job.phase.path) in outbox
    {
      next := ResumeStat(job, Some(size));
      var _ := HandleCallbackQuery(job.chat, m, StopData(job.downloadId), 0);
      ghost var before := |outbox|;
      next := ResumeUpload(next);
      assert outbox[before] == SendVideo(job.chat, job.phase.path);
    }
  }
}
