# youtube-telegram-bot, modelled in Dafny

The project models a Telegram bot. A user sends it a YouTube link. The bot looks
up the video's metadata and shows the title, channel and duration with three
buttons: MP4, MP3 and Cancel. On a format button it downloads the video,
converts it to MP3 when asked, checks the file size against the configured
limit, uploads the file and removes it from the downloads directory. A chat may
have one registered download at a time. `/cancel`, the Cancel button and the
"Cancel Download" button remove that registration, and the running download
checks for it at fixed points.

The model covers four files:

- `src/bot.js` is the `TelegramBot` class in `bot.dfy`. Its state is:
  - `activeDownloads`: chat to download id;
  - `urlStorage`: the URL cache keyed by a 20-character token;
  - `files`: the downloads directory;
  - `outbox`: the Telegram calls made, in order.

  `processDownload` is an `async` function that suspends at each `await`. It is
  modelled as a `Job` whose `Phase` names the `await` it is suspended at. Each
  `Resume...` method runs the code between one `await` and the next. The caller
  supplies the outcome of the awaited call and chooses the interleaving with
  other handlers. Every resumption lowers `Rank`, so every run ends.
- `src/utils.js` is `utils.dfy`:
  - URL validation, file-name sanitising, duration text, the size check;
  - unique file names, video-id extraction, retry with back-off;
  - file extensions, the progress bar, quality labels.
- `src/downloader.js` is `downloader.dfy`:
  - the metadata defaults and three-attempt lookup of `getVideoInfo`;
  - the MP4 format choice, the progress counter and the output path;
  - the size estimate.
- `src/config.js` is `config.dfy`:
  - the configuration tree and its dotted-key `get`/`set`;
  - the `MAX_FILE_SIZE_MB` rule and `validate`.

Shared pieces:

- `text.dfy`: the JavaScript string behaviour the code relies on. This covers
  `split`, `startsWith`, `includes`, `trim`'s white-space set, `parseInt`, and
  number-to-string.
- `base64.dfy`: UTF-8 and base64 (RFC 4648, section 4), as used by
  `Buffer.from(url).toString('base64')`.
- `callback.dfy`: the URL token and the callback-data strings on the buttons.
- `urlcache.dfy`: the insertion-ordered `Map` behind `urlStorage` and its
  eviction rule.

The code is strict-mode JavaScript (class bodies). Some of its behaviour is
easy to misread, and the model keeps it as written:

- After the 101st distinct URL the cache keeps 50 entries, not 51:
  `entries.length - 50` are deleted.
- When metadata is unavailable, `showVideoInfo` is never reached, so nothing is
  put in the cache.
- The checkpoints in `processDownload` test only whether the chat has an entry
  (`activeDownloads.has(chatId)`), not whether the entry is this run's id. A
  run cancelled and followed by a new click therefore carries on
  (`StaleRunScenario`).
- `setNestedValue` through a truthy non-object does not silently do nothing.
  In strict mode, assigning a property of a primitive throws a `TypeError`.
  `Config.SetIn` returns `None` for that case.

## Model

| member | source | states |
|---|---|---|
| Bot.TelegramBot.constructor | src/bot.js:13-23 | empty registry and cache; the directory is `DOWNLOAD_DIR` or `./downloads`; the size limit is the `MAX_FILE_SIZE_MB` rule of `Config.MaxFileSize` |
| Bot.TelegramBot.OnMessage | src/bot.js:37-68 | message routing: text that is non-empty and does not start with `/` goes to the URL handler; `/start`, `/help` and `/cancel` fire wherever they occur in the text; a message without text changes nothing; the outbox gains exactly the URL handler's replies (`MessageReplies`) followed by the command replies (`CommandReplies`); afterwards the registry lost exactly this chat iff the text contains `/cancel`, and the cache gained the URL iff it was a valid link with metadata |
| Bot.TelegramBot.RunCommands | src/bot.js:39-51 | the three command listeners in registration order: the outbox gains the welcome, help and cancel replies of the commands the text contains; only `/cancel` changes the registry |
| Bot.TelegramBot.HandleStart | src/bot.js:70-95 | one welcome message quoting the limit in whole MiB; no state changes |
| Bot.TelegramBot.HandleHelp | src/bot.js:97-128 | one help message quoting the limit in whole MiB; no state changes |
| Bot.TelegramBot.HandleCancel | src/bot.js:130-139 | the chat's entry is removed; the reply says whether one existed |
| Bot.TelegramBot.HandleMessage | src/bot.js:141-182 | an invalid link gets exactly one error reply and changes nothing else; a valid one gets exactly the analysis replies (`MessageReplies`); the cache gains the URL under its token iff the link is valid and metadata was found, and then the token reads back the URL |
| Bot.TelegramBot.Analyze | src/bot.js:152-181 | the outbox gains exactly "analyzing" and then either the edit to "unavailable" (cache unchanged) or the deletion of the loading message and the summary (URL cached under its token, which reads it back) |
| Bot.TelegramBot.ShowVideoInfo | src/bot.js:184-229 | the cache keeps its invariant and stays within 100 entries; afterwards the token reads back the URL; the summary shows the title, channel and duration defaults and the three buttons |
| Bot.TelegramBot.EvictOldest | src/bot.js:207-211 | deleting the entries in insertion order, one by one, leaves exactly the newest 50 (`UrlCache.Evicted`) |
| Bot.TelegramBot.DeleteOldestEntry | src/bot.js:210 | one `delete(key)` of the eviction loop: the `i`-th oldest key goes and the cache becomes `Dropped(c, i + 1)`; nothing else changes |
| Bot.TelegramBot.HandleCallbackQuery | src/bot.js:231-282 | every press is answered first; an unknown or empty token gives "session expired"; a format button with a cached URL appends exactly the answer and then either "already active" or the stop-button edit, and starts a run for that URL; Cancel and Stop remove the chat's entry; Stop without an entry gives the "no active download" notice; other data does nothing |
| Bot.TelegramBot.StartDownload | src/bot.js:285-307 | with an entry already present: the "already active" reply and no registration; otherwise the chat is registered under `chatId_now` and the message gets the stop button |
| Bot.TelegramBot.ResumeStarting | src/bot.js:309-312 | a run whose chat lost its entry ends without touching anything; otherwise it goes on to the metadata lookup |
| Bot.TelegramBot.ResumeInfo | src/bot.js:314-346 | missing metadata fails the run with the failure message; MP4 goes to the download; MP3 first edits the message for conversion |
| Bot.TelegramBot.ProgressTick | src/bot.js:323-337 | a progress value edits the message iff the chat still has an entry and the value is a multiple of 10 |
| Bot.TelegramBot.DeliverProgress | src/bot.js:323-339 | a sequence of progress callbacks appends exactly `ProgressEdits` of them while the chat has an entry |
| Bot.ProgressEdits | src/bot.js:329-336 | at most one edit per value; each edit is a progress edit of this run's message with a multiple of 10 drawn from the values |
| Bot.RepeatedProgressEditedTwice | src/bot.js:329-336 | the same multiple of ten reported twice is shown twice: there is no de-duplication |
| Bot.TelegramBot.ResumeVideo | src/bot.js:339-381 | a saved file is kept and checked iff the chat still has an entry, else removed; a failed download keeps or removes the partial file according to how it failed, and reports failure |
| Bot.TelegramBot.Settle | src/downloader.js:141-150 | a broken stream's `fs.remove(filePath)` leaves no file behind; a download that fails reports failure through the handler's catch (src/bot.js:420-425) |
| Bot.TelegramBot.FinalCheck | src/bot.js:374-381 | the final checkpoint removes the file of a run whose chat lost its entry |
| Bot.TelegramBot.ResumeConversionNotice | src/bot.js:348-351 | a run whose chat lost its entry ends before the download |
| Bot.TelegramBot.ResumeTempVideo | src/bot.js:353-366 | the temporary video is removed when the chat lost its entry; otherwise the message says "converting" and the run converts it |
| Bot.TelegramBot.ConversionCheck | src/bot.js:355-366 | the temporary video is removed and the run ends iff the chat has no entry |
| Bot.TelegramBot.ResumeConversion | src/bot.js:368-381 | a failed conversion keeps the temporary video and reports failure; otherwise the MP3 replaces the temporary video and the final checkpoint applies |
| Bot.TelegramBot.ResumeStat | src/bot.js:383-398 | a file over the limit is reported with its size and the limit and then removed; a file within the limit is announced as uploading |
| Bot.TelegramBot.ResumeUpload | src/bot.js:404-418 | MP4 is sent as video and MP3 as audio; the progress message is deleted and the file removed |
| Bot.TelegramBot.Finish | src/bot.js:426-428 | the `finally` removes the chat's entry, whichever run it belongs to |
| Bot.TelegramBot.SecondClickScenario | src/bot.js:289-292 | a second click while a run is registered is refused; its `finally` then deletes the first run's entry, and the first run stops at its next checkpoint |
| Bot.TelegramBot.StaleRunScenario | src/bot.js:309-312 | after a cancel and a new click, the cancelled run passes its checkpoint because the chat has an entry, though not its own |
| Bot.TelegramBot.ChooseAfterPromptScenario | src/bot.js:200-251 | pressing the MP4 button just shown for a URL starts a run for that URL, registered under `chatId_now` |
| Bot.TelegramBot.LateStopScenario | src/bot.js:394-418 | a stop pressed after the size check removes the entry but the file is still sent |
| Bot.DurationText | src/bot.js:431-440 | selected at src/bot.js:185 by the truthiness of the length; the class's own `formatDuration` agrees with `Utils.FormatDuration` on integers, and the length is always an integer; the duration text is `Unknown` exactly when the length is 0 |
| Bot.VideoPath | src/bot.js:316-339 | the MP4 path for the already-sanitised title (a definition) |
| Bot.DurationTextReadsBack | src/bot.js:185 | a positive length is shown as text that reads back as the same number of seconds |
| Bot.DownloadIdDistinct | src/bot.js:285 | two runs of one chat started at different times get different ids |
| Callback.Token | src/bot.js:200 | the token is the base64 text of the URL's UTF-8 bytes, cut to its first 20 characters |
| Callback.Parse | src/bot.js:238-277 | the data is ignored iff it starts with none of `mp4_`, `mp3_`, `cancel_`, `stop_`; otherwise its second `_` field is the token or id |
| Callback.TokenShape | src/bot.js:200 | the token has at most 20 characters, all from the base64 alphabet, and no `_`, so `split('_')` keeps it whole |
| Callback.TokenFirst15Bytes | src/bot.js:200 | the token depends only on the first 15 UTF-8 bytes of the URL |
| Callback.TokenIgnoresSuffix | src/bot.js:200 | a URL of at least 15 bytes has the token of its prefix, whatever follows |
| Callback.CommonUrlPrefixesShareToken | src/bot.js:200 | every `https://www.you…` URL has the same token, and so does every `https://youtu.b…` URL, so they overwrite one another in the cache |
| Callback.ParseChoiceData | src/bot.js:216-217 | a format button parses back into exactly its format and token |
| Callback.ParseCancelData | src/bot.js:220 | the Cancel button parses back into its token |
| Callback.ParseStopData | src/bot.js:299 | the stop button parses as a stop whose second field is the chat id (the time after `_` is dropped) |
| Callback.PromptButtonsRoundTrip | src/bot.js:213-223 | for any URL, the three buttons parse back to their actions and stay within 24 characters |
| Base64.EncodeLength | src/bot.js:200 | base64 output has 4 characters per started group of 3 bytes |
| Base64.EncodeChars | src/bot.js:200 | base64 output uses only the base64 alphabet and `=` |
| Base64.EncodePrefix | src/bot.js:200 | the first 4k characters depend only on the first 3k bytes |
| Base64.Utf8Append | src/bot.js:200 | `Buffer.from` of a concatenation is the concatenation of the byte strings |
| UrlCache.Get | src/bot.js:242 | `urlStorage.get(token)`: the stored URL, or nothing (a definition) |
| UrlCache.Put | src/bot.js:203-211 | store, then evict when over 100 entries (a definition; its properties are `PutBounded`, `PutThenGet`, `PutAtCapacity`) |
| UrlCache.Set | src/bot.js:204 | `Map.set` keeps the insertion order of an existing key and appends a new one |
| UrlCache.Delete | src/bot.js:210 | `Map.delete` removes exactly that key: a present key is cut out of the order where it stands and the other keys keep their relative order; an absent key changes no order |
| UrlCache.PutBounded | src/bot.js:203-211 | a put keeps the cache consistent and at most 100 entries |
| UrlCache.PutThenGet | src/bot.js:203-211 | the token just put reads back its URL, even when that put triggered eviction |
| UrlCache.PutPresent | src/bot.js:204 | re-putting a present token changes its URL only |
| UrlCache.PutNewBelowCapacity | src/bot.js:204-207 | a new token below capacity is appended |
| UrlCache.PutAtCapacity | src/bot.js:207-211 | a new token at 100 entries leaves the newest 50 (the new one included), forgets the 51 oldest, and the 49 kept old entries keep their URLs |
| UrlCache.LaterUrlWins | src/bot.js:204 | two URLs with one token: the later one is served |
| UrlCache.DroppedOldEntries | src/bot.js:208-210 | deleting the first `length - 50` entries is the eviction |
| Utils.IsValidYouTubeUrl | src/utils.js:7-10 | the URL pattern, as optional scheme, optional `www.`, one of the five host paths and one `[\w-]` character, at the start of the text, with anything after it (`AcceptsAnySuffix`); an accepted text has at least 10 characters |
| Utils.AcceptsAnySuffix | src/utils.js:7-10 | the URL pattern has no end anchor: anything may follow an accepted URL |
| Utils.AcceptsEveryPrefix | src/utils.js:7-10 | each combination of optional scheme, optional `www.` and host path is accepted with a `[\w-]` character after it |
| Utils.AcceptsWatchUrl | src/utils.js:7-10 | the example watch URL is accepted |
| Utils.AcceptedHostStart | src/utils.js:7-10 | an accepted URL has a `y…` or `m…` host right after the optional scheme and `www.` |
| Utils.RejectsOtherSite | src/utils.js:7-10 | a non-YouTube URL is rejected |
| Utils.SanitizeFilename | src/utils.js:15-22 | exactly the first 100 characters of the trimmed, cleaned name, or all of it when shorter; none of `<>:"/\|?*`; white space reduced to single plain spaces; no leading space |
| Utils.SanitizeNormalForm | src/utils.js:15-22 | a name already in normal form comes back unchanged, or cut to 100 |
| Utils.SanitizeIdempotent | src/utils.js:15-22 | sanitising twice is sanitising once when no cut happens |
| Utils.SanitizeNotIdempotentAfterCut | src/utils.js:20-21 | the cut comes after `trim`, so a cut name can end in a space and a second pass changes it |
| Utils.SanitizeDropsOne | src/utils.js:18 | a forbidden character is deleted, not replaced |
| Utils.SanitizeSameAfterRemoval | src/utils.js:18-21 | names that agree once forbidden characters are removed sanitise alike |
| Utils.SanitizeExample | src/utils.js:15-22 | `Test Video: Amazing! (2024)` becomes `Test Video Amazing! (2024)` |
| Utils.FormatDuration | src/utils.js:40-49 | the text always has a `:`; for a non-negative input it ends in `:` and two digits |
| Utils.DurationRoundTrip | src/utils.js:40-49 | a duration text has 3 fields from one hour on, else 2; the first field is the hours (or minutes) unpadded; every later field is exactly two digits with a value below 60; the text reads back as the same number of seconds |
| Utils.ValidateFileSize | src/utils.js:91-99 | the size is accepted iff it does not exceed the limit; a refusal carries the name, size and limit |
| Utils.MbToBytes | src/utils.js:231-233 | the result is a whole number of MiB, equal to the input |
| Utils.GenerateUniqueFilename | src/utils.js:104-116 | the returned path is not taken; it is the first free candidate `name.ext`, `name_1.ext`, … of the sanitised base name |
| Utils.FirstFreeCandidate | src/utils.js:105-113 | the probing loop returns the first candidate not in the directory |
| Utils.CandidatesBound | src/utils.js:109-113 | the loop ends: no more candidates are taken than there are files |
| Utils.ExtractVideoId | src/utils.js:121-125 | a found id has 11 characters, none of `"&?/` or white space |
| Utils.ExtractShortLink | src/utils.js:121-125 | `youtu.be/<id>` yields that id, whatever follows it |
| Utils.RetryWithBackoff | src/utils.js:157-169 | `maxRetries` defaults to 3 and `baseDelay` to 1000; at most `maxRetries` calls; all but the last failed; the result is the last success, or the last error after exactly `maxRetries` calls; waits of `baseDelay·2^i` between calls; no calls and `undefined` when `maxRetries <= 0` |
| Utils.GetFileExtension | src/utils.js:174-176 | the extension has no `.` or `/` |
| Utils.ExtensionOfName | src/utils.js:174-176 | `dir/stem.EXT` with a non-empty stem has extension `ext`, lower-cased; the stem `.` counts too unless the extension is empty (`..` has none) |
| Utils.NoDotNoExtension | src/utils.js:174-176 | a name without a dot has no extension |
| Utils.DotFileNoExtension | src/utils.js:174-176 | a dot file such as `.mp4` has no extension |
| Utils.IsVideoFormat | src/utils.js:181-186 | the extension is one of the eight video extensions (a definition; disjointness is `VideoAndAudioDisjoint`) |
| Utils.IsAudioFormat | src/utils.js:188-194 | the extension is one of the seven audio extensions (a definition; disjointness is `VideoAndAudioDisjoint`) |
| Utils.VideoAndAudioDisjoint | src/utils.js:181-194 | no file is both a video and an audio format |
| Utils.CreateProgressBar | src/utils.js:199-203 | a bar exists iff the filled count is in range; it has `width` three-character cells (3·`width` characters), the first `filled` of them the full cell literal and the rest the empty cell literal |
| Utils.ProgressBarInRange | src/utils.js:199-203 | for progress 0 to 100 the bar exists and has 3·`width` characters |
| Utils.ProgressBarMonotone | src/utils.js:199-203 | more progress never fills fewer cells |
| Utils.ParseQuality | src/utils.js:216-219 | the result is never negative |
| Utils.ParseQualityLabel | src/utils.js:216-219 | `720p…` yields 720 |
| Utils.NoQualityWithoutP | src/utils.js:216-219 | a string without `p` yields 0 |
| Downloader.Normalize | src/downloader.js:41-52 | title and channel are never empty and fall back to their defaults; numbers come from `parseInt(…) \|\| 0` |
| Downloader.NormalizeDetailsOf | src/downloader.js:41-52 | complete metadata passes through unchanged |
| Downloader.NormalizeNothing | src/downloader.js:41-52 | empty metadata gives all the defaults |
| Downloader.GetVideoInfo | src/downloader.js:9-58 | at most three attempts, each after a failed one with a 1-second pause; the result is the normalised metadata of the first success, or nothing after three failures |
| Downloader.Mp4Candidates | src/downloader.js:94 | exactly the formats with video, audio and an mp4 container |
| Downloader.CandidatesAppend | src/downloader.js:94 | the filter keeps the order of `formats`: filtering a concatenation concatenates the filtered parts |
| Downloader.CandidateOrigin | src/downloader.js:94 | the `k`-th candidate stands at an index `i` of `formats`, and the candidates before it are exactly those of `formats[..i]` |
| Downloader.ChooseMp4 | src/downloader.js:92-107 | among muxed mp4 formats, one of greatest height, and the first such in `formats` order: every muxed mp4 format before it is strictly lower; the fallback when there are none |
| Downloader.FirstHighest | src/downloader.js:96-100 | the reduce's result, read back in `formats`: every earlier muxed mp4 format is strictly lower |
| Downloader.BestIndex | src/downloader.js:96-100 | the `reduce` ends on a candidate of greatest height, and no earlier candidate is as high |
| Downloader.EarlierWinsTie | src/downloader.js:96-100 | of equal heights the earlier format is kept |
| Downloader.MissingHeightLoses | src/downloader.js:97-98 | a format without a height counts as height 0 |
| Downloader.TrackProgress | src/downloader.js:129-138 | the byte count is the sum of the chunks; one report per chunk iff there is a callback and a positive `contentLength` |
| Downloader.Accumulate | src/downloader.js:132-138 | the chunk loop reports `floor(downloaded/total·100)` after each chunk |
| Downloader.ReportsNonDecreasing | src/downloader.js:132-138 | progress reports never go down |
| Downloader.ReportsAtMost100 | src/downloader.js:132-138 | reports stay within 0 to 100 while the bytes do not exceed `contentLength` |
| Downloader.ReportsCanExceed100 | src/downloader.js:130-137 | an understated `contentLength` produces reports above 100 |
| Downloader.OutputPath | src/downloader.js:69-70 | the sanitised title plus `.` and the format, joined to the directory (a definition; its shape is `OutputPathShape`) |
| Downloader.OutputPathShape | src/downloader.js:69-70 | for any non-empty sanitised title, `.` included (`..mp4`), the output file is named after it plus the format, and is classified as video or audio accordingly |
| Downloader.EmptyTitleDotFile | src/downloader.js:69-70 | a title made only of forbidden characters yields the dot file `.mp4`, which has no extension |
| Downloader.EstimatedFileSize | src/downloader.js:236-254 | no format gives 0; an unknown size needs a format |
| Downloader.EstimateFromContentLength | src/downloader.js:241-243 | a stated `contentLength` is the estimate |
| Downloader.EstimateFromBitrate | src/downloader.js:241-248 | with `contentLength` missing or empty, the estimate is `floor(duration × bitrate ÷ 8)` with the format's own non-zero bitrate |
| Downloader.EstimateFromDuration | src/downloader.js:241-248 | with `contentLength` missing or empty and the bitrate missing or 0, the estimate is duration × 1 Mbit/s ÷ 8 |
| Downloader.EstimateWithoutLength | src/downloader.js:245-248 | with neither `contentLength` nor a readable duration there is no number (NaN) |
| Config.GetPath | src/config.js:53-55 | `getNestedValue`: each step reads an own property of a truthy value, else `undefined` (a definition; see the lemmas below) |
| Config.ConfigStore.Get | src/config.js:45-47 | `get(key)` is `getNestedValue` on the `.` pieces of the key (a definition; `SetThenGet` ties it to `set`) |
| Config.Defaults | src/config.js:9-43 | the default tree with the environment's token, size rule, directory and log level (a definition; `DefaultsValidation` states what `validate` says of it) |
| Config.GetThroughFalsy | src/config.js:53-55 | a lookup that meets a falsy value gives `undefined` |
| Config.GetMissingSegment | src/config.js:53-55 | a missing key gives `undefined` |
| Config.SetIn | src/config.js:57-62 | writing into a non-object fails; a successful write yields an object |
| Config.SetThenGet | src/config.js:45-62 | after a successful `set`, `get` of the same key returns the value |
| Config.SetKeepsOthers | src/config.js:45-62 | a `set` leaves every key that branches off the written path unchanged |
| Config.FreshObjectMisses | src/config.js:57-62 | the intermediate objects a `set` creates hold nothing else |
| Config.SetFailsIff | src/config.js:57-62 | a `set` throws exactly when a proper prefix of the key reads a truthy non-object |
| Config.NeverBlocksFresh | src/config.js:57-62 | a `set` into an empty object always succeeds |
| Config.SetReplacesFalsy | src/config.js:60 | a falsy intermediate value is replaced by a new object |
| Config.MaxFileSize | src/config.js:14 | the limit is a non-zero whole number of MiB; it is negative exactly when `MAX_FILE_SIZE_MB` parses to a negative number |
| Config.MaxFileSizeOf | src/config.js:14 | a non-zero number of MiB gives that many MiB |
| Config.MaxFileSizeFallback | src/config.js:14 | a missing, unparsable or zero setting gives 50 MiB |
| Config.ValidationErrors | src/config.js:64-83 | the errors come in the source's order and are drawn from its three messages |
| Config.DefaultsValidation | src/config.js:9-83 | for the loaded defaults: "token required" iff the token is missing or empty; "size not positive" iff `MAX_FILE_SIZE_MB` parses negative; never "directory required" |
| Config.ConfigStore.constructor | src/config.js:5-43 | the configuration starts as the defaults for the environment |
| Config.ConfigStore.Set | src/config.js:49-51 | the write succeeds iff the path can be written; on success the key reads back the value; on failure nothing changes |
| Config.ConfigStore.Validate | src/config.js:64-83 | the result lists exactly the validation errors; `valid` iff there are none |

## Left out

- The Telegram transport is not part of this model. Calls become `outbox` events and are assumed to succeed. The `catch` paths of the handlers that only catch transport failures are not modelled. Message wording is reduced to the `Message` constructors, with the numbers they carry.
- `ytdl-core` and the network are parameters. `GetVideoInfo` receives each attempt's outcome. The download, stat, conversion and upload outcomes reach the `Resume...` methods as arguments.
- `src/converter.js` is not part of this model. Conversion appears only as the path it returns, or its failure.
- `Bot.TelegramBot.ResumeVideo`: the ways `downloadVideo` fails are abstracted into `VideoOutcome`. They are an unreachable video, a stream failure that removes the partial file, or a missing format.
- `Bot.TelegramBot.ResumeConversion`: `convertToMp3` followed by removing the temporary video is one step, as is send, delete and remove in `ResumeUpload`. Handlers that run between those awaits are not interleaved.
- `Bot.TelegramBot.OnMessage`: all handlers for one message run to completion, message handler first. In the bot they interleave at their awaits.
- `Bot.TelegramBot.HandleCallbackQuery`, `Bot.TelegramBot.HandleMessage`, `Bot.TelegramBot.Analyze` and `Bot.TelegramBot.ConversionCheck` run as one step each. The awaits they collapse are `answerCallbackQuery` before the dispatch (src/bot.js:236), the three awaits of `handleMessage` (156, 160, 173), and the converting edit before `convertToMp3` (362-368). No checkpoint lies between them, so another handler running there could change only the order of the outbox.
- `Bot.TelegramBot.constructor`: `initializeBot` (`ensureDir`, cleanup start, logging) and `src/cleanup.js` are not modelled; they only touch the file system and the clock.
- Captions and the size text use `formatFileSize` and `bytesToMB`, which are floating-point. They are left out; `FileTooLarge` carries the raw numbers instead.
- `throttle`, `debounce`, `logWithTimestamp`, `cleanupOldFiles` and `getAvailableSpace` are left out because they are timers, clocks and file-system walks. `Date.now()` is the `now` parameter.
- `validateYouTubeUrl`, `getAvailableFormats` and `getVideoDuration` in `src/downloader.js` are unused by the bot and are only network calls.
- `Downloader.ChooseMp4`: the `ytdl.chooseFormat` fallback and the non-mp4 branch of `downloadVideo` are a parameter. The library's choice is not modelled.
- `Downloader.TrackProgress`: `Math.floor(downloaded / total * 100)` is computed exactly in integers. Floating-point rounding near multiples of a hundredth is not modelled.
- `Utils.CreateProgressBar`: `Math.floor(progress / 100 * width)` is computed exactly in integers, without floating-point rounding.
- `Utils.GetFileExtension`: `path.extname` is modelled for paths built by `path.join` with a separator-free name. `path.join` normalisation (`..`, repeated separators) is not modelled.
- Strings are sequences of Unicode scalar values, not UTF-16 code units; lengths and the 100-character cut differ for characters outside the BMP.
- `toLowerCase` is modelled for ASCII letters only.
- JavaScript numbers are modelled as unbounded integers. Values above 2^53 lose precision in the bot and not here.
- `Config.ConfigStore.Set`: keys are looked up as own properties. Prototype properties such as `toString`, array `length`, and a string's index and `length` properties are not modelled: `get('download.directory.0')` is `'.'` in the bot and `undefined` here. Values are not shared between places in the tree, so aliasing of a stored object is not modelled.
- `Config.ValidationErrors`: `Number()` of forms other than plain decimal integers (hex, exponent, fractions) is treated as NaN.
