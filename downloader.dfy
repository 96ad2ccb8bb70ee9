/** The selection and normalisation rules of the downloader the bot uses
    (src/downloader.js): the ordered retry of `getVideoInfo` and the defaults of
    the record it returns, the mp4 format choice of `downloadVideo`, its progress
    percentage and output path, and `getEstimatedFileSize`. Every request to
    YouTube is an outcome supplied by the caller. */
module Downloader {
  import opened Text
  import opened Utils

  // ---------------------------------------------------------------------------
  // getVideoInfo (src/downloader.js:9-58)

  datatype Author = Author(name: Option<string>, channelUrl: Option<string>)

  datatype Thumbnail = Thumbnail(url: Option<string>)

  /** The fields of `info.videoDetails` that getVideoInfo reads; `None` is a
      missing field. Numeric fields arrive as text. */
  datatype VideoDetails = VideoDetails(
    title: Option<string>,
    author: Option<Author>,
    lengthSeconds: Option<string>,
    description: Option<string>,
    thumbnails: Option<seq<Thumbnail>>,
    viewCount: Option<string>,
    uploadDate: Option<string>)

  /** The record getVideoInfo resolves to. */
  datatype VideoInfo = VideoInfo(
    title: string,
    authorName: string,
    channelUrl: string,
    lengthSeconds: int,
    description: string,
    thumbnail: string,
    viewCount: int,
    uploadDate: string)

  const UnknownTitle: string := "Unknown Title"
  const UnknownChannel: string := "Unknown Channel"

  /** `x || fallback` on a string field: a missing or empty string gives way. */
  function OrElse(x: Option<string>, fallback: string): string
  {
    if x.Some? && x.value != [] then x.value else fallback
  }

  /** `author?.name`. */
  function AuthorName(d: VideoDetails): Option<string>
  {
    if d.author.Some? then d.author.value.name else None
  }

  /** `author?.channel_url`. */
  function ChannelUrl(d: VideoDetails): Option<string>
  {
    if d.author.Some? then d.author.value.channelUrl else None
  }

  /** `thumbnails?.[0]?.url`. */
  function FirstThumbnail(d: VideoDetails): Option<string>
  {
    if d.thumbnails.Some? && |d.thumbnails.value| > 0 then d.thumbnails.value[0].url else None
  }

  /** The record built from the details (src/downloader.js:41-52): a missing or
      empty title or channel name is replaced by its placeholder, a missing or
      unparsable number by 0, any other missing text by the empty string. */
  function Normalize(d: VideoDetails): (r: VideoInfo)
    ensures r.title != [] && r.authorName != []
    ensures d.title.Some? && d.title.value != [] ==> r.title == d.title.value
    ensures d.title.None? || d.title == Some([]) ==> r.title == UnknownTitle
    ensures AuthorName(d).Some? && AuthorName(d).value != [] ==> r.authorName == AuthorName(d).value
    ensures d.author.None? || AuthorName(d).None? || AuthorName(d) == Some([]) ==> r.authorName == UnknownChannel
    ensures r.lengthSeconds == ParseIntOrZero(d.lengthSeconds)
    ensures r.viewCount == ParseIntOrZero(d.viewCount)
    ensures d.thumbnails.None? || d.thumbnails == Some([]) ==> r.thumbnail == []
  {
    VideoInfo(
      OrElse(d.title, UnknownTitle),
      OrElse(AuthorName(d), UnknownChannel),
      OrElse(ChannelUrl(d), ""),
      ParseIntOrZero(d.lengthSeconds),
      OrElse(d.description, ""),
      OrElse(FirstThumbnail(d), ""),
      ParseIntOrZero(d.viewCount),
      OrElse(d.uploadDate, ""))
  }

  /** Details carrying every field of a record, numbers written in decimal. */
  function DetailsOf(r: VideoInfo): VideoDetails
  {
    VideoDetails(
      Some(r.title),
      Some(Author(Some(r.authorName), Some(r.channelUrl))),
      Some(IntToString(r.lengthSeconds)),
      Some(r.description),
      Some([Thumbnail(Some(r.thumbnail))]),
      Some(IntToString(r.viewCount)),
      Some(r.uploadDate))
  }

  /** A record Normalize can produce is rebuilt unchanged from its own fields:
      every default is applied once and only where a value is missing. */
  lemma NormalizeDetailsOf(r: VideoInfo)
    requires r.title != [] && r.authorName != []
    ensures Normalize(DetailsOf(r)) == r
  {
    ParseIntOfIntToString(r.lengthSeconds);
    ParseIntOfIntToString(r.viewCount);
  }

  /** Details with no field at all give the placeholder record. */
  lemma NormalizeNothing(d: VideoDetails)
    requires d == VideoDetails(None, None, None, None, None, None, None)
    ensures Normalize(d) == VideoInfo(UnknownTitle, UnknownChannel, "", 0, "", "", 0, "")
  {
  }

  /** The option sets tried, in this order (src/downloader.js:18-22). */
  const OptionSets: nat := 3
  /** The pause after each failed attempt, in milliseconds (src/downloader.js:31). */
  const RetryPause: nat := 1000

  /** `getVideoInfo(url)` where `fetch(i)` is how `ytdl.getInfo` settles with the
      `i`-th option set. The option sets are tried in order up to the first
      success; each failure is followed by a one-second pause, the last one
      included; `None` is the `null` returned when all three fail. */
  method GetVideoInfo<E>(fetch: nat -> Attempt<VideoDetails, E>)
    returns (info: Option<VideoInfo>, calls: nat, pauses: seq<nat>)
    ensures 1 <= calls <= OptionSets
    ensures forall i :: 0 <= i < calls - 1 ==> fetch(i).Failed?
    ensures info.Some? <==> fetch(calls - 1).Succeeded?
    ensures info.Some? ==> info.value == Normalize(fetch(calls - 1).value)
    ensures info.None? ==> calls == OptionSets
    ensures |pauses| == (if info.Some? then calls - 1 else calls)
    ensures forall i :: 0 <= i < |pauses| ==> pauses[i] == RetryPause
  {
    calls := 0;
    pauses := [];
    while calls < OptionSets
      invariant calls <= OptionSets
      invariant forall i :: 0 <= i < calls ==> fetch(i).Failed?
      invariant |pauses| == calls && forall i :: 0 <= i < calls ==> pauses[i] == RetryPause
    {
      var outcome := fetch(calls);
      calls := calls + 1;
      match outcome
      case Succeeded(d) =>
        info := Some(Normalize(d));
        return;
      case Failed(_) =>
        pauses := pauses + [RetryPause];
    }
    info := None;
  }

  // ---------------------------------------------------------------------------
  // The mp4 format choice (src/downloader.js:92-115)

  /** One entry of `info.formats`: the fields downloadVideo reads. */
  datatype MediaFormat = MediaFormat(
    hasVideo: bool,
    hasAudio: bool,
    container: string,
    height: Option<string>,
    contentLength: Option<string>,
    bitrate: Option<int>)

  predicate IsMuxedMp4(f: MediaFormat) {
    f.hasVideo && f.hasAudio && f.container == "mp4"
  }

  /** `formats.filter(f => f.hasVideo && f.hasAudio && f.container === 'mp4')`. */
  function Mp4Candidates(formats: seq<MediaFormat>): (cs: seq<MediaFormat>)
    ensures |cs| <= |formats|
    ensures forall f :: f in cs <==> f in formats && IsMuxedMp4(f)
  {
    KeptAreMuxed(formats);
    KeepMuxedMp4(formats)
  }

  /** The filter itself, one format at a time. */
  function KeepMuxedMp4(formats: seq<MediaFormat>): seq<MediaFormat>
  {
    if formats == [] then []
    else if IsMuxedMp4(formats[0]) then [formats[0]] + KeepMuxedMp4(formats[1..])
    else KeepMuxedMp4(formats[1..])
  }

  lemma {:induction false} KeptAreMuxed(formats: seq<MediaFormat>)
    ensures |KeepMuxedMp4(formats)| <= |formats|
    ensures forall f :: f in KeepMuxedMp4(formats) <==> f in formats && IsMuxedMp4(f)
  {
    if formats != [] {
      KeptAreMuxed(formats[1..]);
      assert formats == [formats[0]] + formats[1..];
    }
  }

  /** One step of the filter. */
  lemma CandidatesCons(f: MediaFormat, rest: seq<MediaFormat>)
    ensures KeepMuxedMp4([f] + rest) == (if IsMuxedMp4(f) then [f] else []) + KeepMuxedMp4(rest)
  {
    assert ([f] + rest)[0] == f && ([f] + rest)[1..] == rest;
  }

  /** The filter keeps the order of `formats`: filtering a concatenation is
      concatenating the filtered parts. */
  lemma {:induction false} CandidatesAppend(a: seq<MediaFormat>, b: seq<MediaFormat>)
    ensures KeepMuxedMp4(a + b) == KeepMuxedMp4(a) + KeepMuxedMp4(b)
    decreases |a|
  {
    if a == [] {
      assert a + b == b;
    } else {
      assert a + b == [a[0]] + (a[1..] + b);
      assert a == [a[0]] + a[1..];
      CandidatesCons(a[0], a[1..] + b);
      CandidatesCons(a[0], a[1..]);
      CandidatesAppend(a[1..], b);
    }
  }

  /** The `k`-th candidate stands at some index `i` of `formats`, and the
      candidates before it are exactly those of `formats[..i]`. */
  lemma {:induction false} CandidateOrigin(formats: seq<MediaFormat>, k: nat)
    requires k < |KeepMuxedMp4(formats)|
    ensures exists i ::
      0 <= i < |formats| && formats[i] == KeepMuxedMp4(formats)[k] && KeepMuxedMp4(formats[..i]) == KeepMuxedMp4(formats)[..k]
    decreases |formats|
  {
    var f := formats[0];
    var tail := formats[1..];
    var head := if IsMuxedMp4(f) then [f] else [];
    assert formats == [f] + tail;
    CandidatesCons(f, tail);
    var cs := KeepMuxedMp4(formats);
    var rest := KeepMuxedMp4(tail);
    assert cs == head + rest;
    if IsMuxedMp4(f) && k == 0 {
      assert formats[..0] == [];
      assert formats[0] == cs[0];
    } else {
      var k' := k - |head|;
      CandidateOrigin(tail, k');
      var i :| 0 <= i < |tail| && tail[i] == rest[k'] && KeepMuxedMp4(tail[..i]) == rest[..k'];
      assert formats[..i + 1] == [f] + tail[..i];
      CandidatesCons(f, tail[..i]);
      assert cs[..k] == head + rest[..k'];
      assert cs[k] == rest[k'];
      assert formats[i + 1] == tail[i];
    }
  }

  /** `parseInt(f.height) || 0`. */
  function Height(f: MediaFormat): int
  {
    ParseIntOrZero(f.height)
  }

  /** The heights of the candidates, in order. */
  function Heights(cs: seq<MediaFormat>): (hs: seq<int>)
    ensures |hs| == |cs|
  {
    seq(|cs|, j requires 0 <= j < |cs| => Height(cs[j]))
  }

  /** The index `reduce` ends on: it starts from the first candidate and moves to
      a later one only when that one is strictly higher, so the result is the
      first candidate of greatest height. */
  function BestIndex(hs: seq<int>): (k: nat)
    requires |hs| > 0
    ensures k < |hs|
    ensures forall j :: 0 <= j < |hs| ==> hs[j] <= hs[k]
    ensures forall j :: 0 <= j < k ==> hs[j] < hs[k]
    decreases |hs|
  {
    if |hs| == 1 then 0
    else
      var b := BestIndex(hs[..|hs| - 1]);
      if hs[|hs| - 1] > hs[b] then |hs| - 1 else b
  }

  /** The greatest height, defined independently of the fold. */
  function MaxOf(hs: seq<int>): int
    requires |hs| > 0
    decreases |hs|
  {
    if |hs| == 1 then hs[0]
    else
      var m := MaxOf(hs[1..]);
      if hs[0] > m then hs[0] else m
  }

  lemma {:induction false} MaxOfIsMax(hs: seq<int>)
    requires |hs| > 0
    ensures forall j :: 0 <= j < |hs| ==> hs[j] <= MaxOf(hs)
    ensures exists j :: 0 <= j < |hs| && hs[j] == MaxOf(hs)
    decreases |hs|
  {
    if |hs| > 1 {
      MaxOfIsMax(hs[1..]);
      var j :| 0 <= j < |hs[1..]| && hs[1..][j] == MaxOf(hs[1..]);
      assert hs[1..][j] == hs[j + 1];
      forall i | 1 <= i < |hs| ensures hs[i] <= MaxOf(hs) {
        assert hs[i] == hs[1..][i - 1];
      }
      if hs[0] > MaxOf(hs[1..]) {
        assert hs[0] == MaxOf(hs);
      } else {
        assert hs[j + 1] == MaxOf(hs);
      }
    } else {
      assert hs[0] == MaxOf(hs);
    }
  }

  /** The fold lands on the greatest height. */
  lemma BestIsMax(hs: seq<int>)
    requires |hs| > 0
    ensures hs[BestIndex(hs)] == MaxOf(hs)
  {
    MaxOfIsMax(hs);
  }

  /** The format downloadVideo settles on for mp4: the first highest muxed mp4
      format when there is one, else what `ytdl.chooseFormat` picks with
      `quality: 'highest', filter: 'audioandvideo'`, supplied as `fallback`. */
  function ChooseMp4(formats: seq<MediaFormat>, fallback: Option<MediaFormat>): (r: Option<MediaFormat>)
    ensures Mp4Candidates(formats) == [] ==> r == fallback
    ensures Mp4Candidates(formats) != [] ==> r.Some? && r.value in formats && IsMuxedMp4(r.value)
    ensures Mp4Candidates(formats) != [] ==>
      forall g :: g in formats && IsMuxedMp4(g) ==> Height(g) <= Height(r.value)
    ensures Mp4Candidates(formats) != [] ==>
      exists i ::
        0 <= i < |formats| && formats[i] == r.value &&
        forall j :: 0 <= j < i && IsMuxedMp4(formats[j]) ==> Height(formats[j]) < Height(r.value)
  {
    var cs := Mp4Candidates(formats);
    if cs == [] then fallback
    else
      var k := BestIndex(Heights(cs));
      ChosenIsHighest(cs, k);
      FirstHighest(formats, k);
      Some(cs[k])
  }

  /** The reduce's index, read back in `formats`: every muxed mp4 format before
      the chosen one is strictly lower. */
  lemma FirstHighest(formats: seq<MediaFormat>, k: nat)
    requires Mp4Candidates(formats) != [] && k == BestIndex(Heights(Mp4Candidates(formats)))
    ensures exists i ::
      0 <= i < |formats| && formats[i] == Mp4Candidates(formats)[k] &&
      forall j :: 0 <= j < i && IsMuxedMp4(formats[j]) ==> Height(formats[j]) < Height(Mp4Candidates(formats)[k])
  {
    var cs := Mp4Candidates(formats);
    var hs := Heights(cs);
    CandidateOrigin(formats, k);
    var i :| 0 <= i < |formats| && formats[i] == cs[k] && KeepMuxedMp4(formats[..i]) == cs[..k];
    var before := formats[..i];
    KeptAreMuxed(before);
    forall j | 0 <= j < i && IsMuxedMp4(formats[j]) ensures Height(formats[j]) < Height(cs[k]) {
      var g := formats[j];
      assert before[j] == g;
      assert g in KeepMuxedMp4(before);
      var p :| 0 <= p < k && cs[..k][p] == g;
      assert cs[p] == g && hs[p] == Height(g) && hs[k] == Height(cs[k]);
    }
  }

  lemma ChosenIsHighest(cs: seq<MediaFormat>, k: nat)
    requires k < |cs| && forall j :: 0 <= j < |cs| ==> Heights(cs)[j] <= Heights(cs)[k]
    ensures cs[k] in cs
    ensures forall g :: g in cs ==> Height(g) <= Height(cs[k])
  {
    forall g | g in cs ensures Height(g) <= Height(cs[k]) {
      var j :| 0 <= j < |cs| && cs[j] == g;
      assert Heights(cs)[j] == Height(g);
    }
  }

  /** Two candidates of the same height: the earlier one is kept. */
  lemma EarlierWinsTie(a: MediaFormat, b: MediaFormat)
    requires IsMuxedMp4(a) && IsMuxedMp4(b) && Height(a) == Height(b)
    ensures ChooseMp4([a, b], None) == Some(a)
  {
    assert [a, b][1..] == [b];
    assert Mp4Candidates([b]) == [b] by {
      assert [b][1..] == [];
    }
  }

  /** A format whose height is missing counts as height 0, so any candidate
      with a positive height beats it, wherever it stands. */
  lemma MissingHeightLoses(a: MediaFormat, b: MediaFormat)
    requires IsMuxedMp4(a) && IsMuxedMp4(b) && a.height.None? && Height(b) > 0
    ensures ChooseMp4([a, b], None) == Some(b)
    ensures ChooseMp4([b, a], None) == Some(b)
  {
    assert [a, b][1..] == [b] && [b, a][1..] == [a];
    assert Mp4Candidates([b]) == [b] by {
      assert [b][1..] == [];
    }
    assert Mp4Candidates([a]) == [a] by {
      assert [a][1..] == [];
    }
  }

  // ---------------------------------------------------------------------------
  // Progress (src/downloader.js:129-139)

  /** The bytes received over a run of chunks. */
  function Sum(chunks: seq<nat>): nat
    decreases |chunks|
  {
    if chunks == [] then 0 else Sum(chunks[..|chunks| - 1]) + chunks[|chunks| - 1]
  }

  /** `Math.floor((downloaded / total) * 100)`, on integers. */
  function Percent(downloaded: nat, total: int): int
    requires total > 0
  {
    (downloaded * 100) / total
  }

  /** The value reported after each chunk: the percentage of the bytes received so far. */
  function Reports(chunks: seq<nat>, total: int): (r: seq<int>)
    requires total > 0
    ensures |r| == |chunks|
  {
    seq(|chunks|, i requires 0 <= i < |chunks| => Percent(Sum(chunks[..i + 1]), total))
  }

  /** The `data` handler over a run of chunks: it adds up the bytes and, when a
      callback is given and `contentLength` parses to a positive number, reports
      the percentage after every chunk. */
  method TrackProgress(chunks: seq<nat>, contentLength: Option<string>, hasCallback: bool)
    returns (downloaded: nat, reports: seq<int>)
    ensures downloaded == Sum(chunks)
    ensures hasCallback && ParseIntOrZero(contentLength) > 0 ==>
      reports == Reports(chunks, ParseIntOrZero(contentLength))
    ensures !(hasCallback && ParseIntOrZero(contentLength) > 0) ==> reports == []
  {
    var total := ParseIntOrZero(contentLength);
    downloaded, reports := Accumulate(chunks, total, hasCallback && total > 0);
  }

  /** The handler's loop: `downloadedBytes += chunk.length`, then a report when
      reporting is on. */
  method Accumulate(chunks: seq<nat>, total: int, report: bool)
    returns (downloaded: nat, reports: seq<int>)
    requires report ==> total > 0
    ensures downloaded == Sum(chunks)
    ensures report ==> reports == Reports(chunks, total)
    ensures !report ==> reports == []
  {
    downloaded := 0;
    reports := [];
    var i := 0;
    while i < |chunks|
      invariant i <= |chunks|
      invariant downloaded == Sum(chunks[..i])
      invariant report ==> |reports| == i
      invariant report ==> forall j :: 0 <= j < i ==> reports[j] == Percent(Sum(chunks[..j + 1]), total)
      invariant !report ==> reports == []
    {
      SumStep(chunks, i);
      downloaded := downloaded + chunks[i];
      if report {
        reports := reports + [Percent(downloaded, total)];
      }
      i := i + 1;
    }
    assert chunks[..i] == chunks;
    if report {
      ReportsPointwise(chunks, total, reports);
    }
  }

  lemma SumStep(chunks: seq<nat>, i: nat)
    requires i < |chunks|
    ensures Sum(chunks[..i + 1]) == Sum(chunks[..i]) + chunks[i]
  {
    assert chunks[..i + 1][..i] == chunks[..i];
  }

  lemma ReportsPointwise(chunks: seq<nat>, total: int, reports: seq<int>)
    requires total > 0 && |reports| == |chunks|
    requires forall j :: 0 <= j < |chunks| ==> reports[j] == Percent(Sum(chunks[..j + 1]), total)
    ensures reports == Reports(chunks, total)
  {
  }

  lemma {:induction false} SumPrefixMonotone(chunks: seq<nat>, i: nat, j: nat)
    requires i <= j <= |chunks|
    ensures Sum(chunks[..i]) <= Sum(chunks[..j])
    decreases j - i
  {
    if i < j {
      SumPrefixMonotone(chunks, i, j - 1);
      assert chunks[..j][..j - 1] == chunks[..j - 1];
    }
  }

  lemma PercentMonotone(a: nat, b: nat, total: int)
    requires a <= b && total > 0
    ensures Percent(a, total) <= Percent(b, total)
  {
    var qa, qb := (a * 100) / total, (b * 100) / total;
    assert qa * total <= a * 100;
    assert b * 100 < (qb + 1) * total;
    if qa > qb {
      MulMonotone(qb + 1, qa, total);
    }
  }

  lemma MulMonotone(p: int, q: int, t: int)
    requires p <= q && t > 0
    ensures p * t <= q * t
  {
  }

  lemma PercentOfTotal(total: int)
    requires total > 0
    ensures Percent(total, total) == 100
  {
    DivMulExact(100, total);
    assert total * 100 == 100 * total;
  }

  lemma DivMulExact(k: int, t: int)
    requires t > 0
    ensures (k * t) / t == k
  {
    var q, r := (k * t) / t, (k * t) % t;
    assert k * t == q * t + r && 0 <= r < t;
    assert (q + 1) * t == q * t + t;
    assert (k + 1) * t == k * t + t;
    if q < k {
      MulMonotone(q + 1, k, t);
    } else if q > k {
      MulMonotone(k + 1, q, t);
    }
  }

  /** The reported percentages never go down. */
  lemma ReportsNonDecreasing(chunks: seq<nat>, total: int, i: nat, j: nat)
    requires total > 0 && i <= j < |chunks|
    ensures Reports(chunks, total)[i] <= Reports(chunks, total)[j]
  {
    SumPrefixMonotone(chunks, i + 1, j + 1);
    PercentMonotone(Sum(chunks[..i + 1]), Sum(chunks[..j + 1]), total);
  }

  /** While no more bytes arrive than `contentLength` announced, no report exceeds 100. */
  lemma ReportsAtMost100(chunks: seq<nat>, total: int, i: nat)
    requires total > 0 && Sum(chunks) <= total && i < |chunks|
    ensures 0 <= Reports(chunks, total)[i] <= 100
  {
    SumPrefixMonotone(chunks, i + 1, |chunks|);
    assert chunks[..|chunks|] == chunks;
    PercentBetween(Sum(chunks[..i + 1]), total);
  }

  lemma PercentBetween(s: nat, total: int)
    requires 0 < total && s <= total
    ensures 0 <= Percent(s, total) <= 100
  {
    PercentMonotone(s, total, total);
    PercentOfTotal(total);
    assert 0 <= s * 100;
  }

  /** Nothing caps the value: twice the announced bytes are reported as 200. */
  lemma ReportsCanExceed100(chunks: seq<nat>, total: int)
    requires total > 0 && |chunks| > 0 && Sum(chunks) == 2 * total
    ensures Reports(chunks, total)[|chunks| - 1] == 200
  {
    assert chunks[..|chunks|] == chunks;
    DoublePercent(total);
  }

  lemma DoublePercent(total: int)
    requires total > 0
    ensures Percent(2 * total, total) == 200
  {
    DivMulExact(200, total);
    assert 2 * total * 100 == 200 * total;
  }

  // ---------------------------------------------------------------------------
  // Output path (src/downloader.js:69-70)

  /** `path.join(downloadDir, sanitizeFilename(title) + '.' + format)`. */
  function OutputPath(downloadDir: string, title: string, format: string): string
  {
    PathJoin(downloadDir, SanitizeFilename(title) + "." + format)
  }

  /** The last component of the output path is the sanitised title with the
      format as its extension, so an mp4 download is a video file by the
      extension rules; the title cannot add a directory level. */
  lemma OutputPathShape(downloadDir: string, title: string, format: string)
    requires format == "mp4" || format == "mp3"
    requires SanitizeFilename(title) != []
    ensures Basename(OutputPath(downloadDir, title, format)) == SanitizeFilename(title) + "." + format
    ensures GetFileExtension(OutputPath(downloadDir, title, format)) == format
    ensures format == "mp4" ==> IsVideoFormat(OutputPath(downloadDir, title, format))
    ensures format == "mp3" ==> IsAudioFormat(OutputPath(downloadDir, title, format))
  {
    var stem := SanitizeFilename(title);
    NoForbiddenNoSlash(stem);
    NameShape(downloadDir, stem, format);
  }

  lemma NoForbiddenNoSlash(s: string)
    requires NoForbidden(s)
    ensures NotIn('/', s)
  {
    forall i | 0 <= i < |s| ensures s[i] != '/' {
      assert !IsForbidden(s[i]);
    }
  }

  lemma NameShape(downloadDir: string, stem: string, format: string)
    requires format == "mp4" || format == "mp3"
    requires stem != [] && NotIn('/', stem)
    ensures Basename(PathJoin(downloadDir, stem + "." + format)) == stem + "." + format
    ensures GetFileExtension(PathJoin(downloadDir, stem + "." + format)) == format
  {
    FormatShape(format);
    NameWithoutSlash(stem, format);
    BasenameJoin(downloadDir, stem + "." + format);
    assert PathJoin(downloadDir, stem + "." + format) == downloadDir + "/" + stem + "." + format;
    ExtensionOfName(downloadDir, stem, format);
  }

  lemma FormatShape(format: string)
    requires format == "mp4" || format == "mp3"
    ensures NotIn('/', format) && NotIn('.', format) && AsciiLower(format) == format
  {
  }

  lemma NameWithoutSlash(stem: string, format: string)
    requires NotIn('/', stem) && NotIn('/', format)
    ensures NotIn('/', stem + "." + format)
  {
    var name := stem + "." + format;
    forall i | 0 <= i < |name| ensures name[i] != '/' {
      if i < |stem| {
        assert name[i] == stem[i];
      } else if i > |stem| {
        assert name[i] == format[i - |stem| - 1];
      }
    }
  }

  /** A title made only of forbidden characters leaves the dot file `.mp4` (or
      `.mp3`), which has no extension. */
  lemma EmptyTitleDotFile(downloadDir: string, title: string, format: string)
    requires format == "mp4" || format == "mp3"
    requires SanitizeFilename(title) == []
    ensures OutputPath(downloadDir, title, format) == downloadDir + "/." + format
    ensures GetFileExtension(OutputPath(downloadDir, title, format)) == []
  {
    FormatShape(format);
    DotFileName(downloadDir, SanitizeFilename(title), format);
  }

  lemma DotFileName(downloadDir: string, stem: string, format: string)
    requires stem == [] && NotIn('/', format) && NotIn('.', format)
    ensures PathJoin(downloadDir, stem + "." + format) == downloadDir + "/." + format
    ensures GetFileExtension(downloadDir + "/." + format) == []
  {
    assert stem + "." + format == "." + format;
    DotFileNoExtension(downloadDir, format);
  }

  // ---------------------------------------------------------------------------
  // getEstimatedFileSize (src/downloader.js:236-254)

  /** The bitrate assumed when the format has none: one megabit per second. */
  const DefaultBitrate: nat := 1000000

  /** `getEstimatedFileSize`: `chosen` is the format `ytdl.chooseFormat` picks,
      `None` when fetching or choosing threw (the estimate is then 0). A format
      with a non-empty `contentLength` gives that number; otherwise the length in
      seconds times the bitrate, over 8. `None` stands for `NaN`. */
  function EstimatedFileSize(chosen: Option<MediaFormat>, lengthSeconds: Option<string>): (r: Option<int>)
    ensures chosen.None? ==> r == Some(0)
    ensures r.None? ==> chosen.Some?
  {
    if chosen.None? then Some(0)
    else
      var f := chosen.value;
      if f.contentLength.Some? && f.contentLength.value != [] then ParseInt(f.contentLength.value)
      else
        var bitrate := if f.bitrate.Some? && f.bitrate.value != 0 then f.bitrate.value else DefaultBitrate;
        if lengthSeconds.None? then None
        else match ParseInt(lengthSeconds.value)
          case None => None
          case Some(d) => Some((d * bitrate) / 8)
  }

  /** A known content length is returned as it is. */
  lemma EstimateFromContentLength(f: MediaFormat, n: int, lengthSeconds: Option<string>)
    requires f.contentLength == Some(IntToString(n))
    ensures EstimatedFileSize(Some(f), lengthSeconds) == Some(n)
  {
    ParseIntOfIntToString(n);
  }

  /** With no content length (missing or the empty, falsy string), the estimate is
      the length in seconds times the format's own bitrate, over 8, rounded down. */
  lemma EstimateFromBitrate(f: MediaFormat, seconds: int, b: int)
    requires f.contentLength.None? || f.contentLength == Some([])
    requires f.bitrate == Some(b) && b != 0
    ensures EstimatedFileSize(Some(f), Some(IntToString(seconds))) == Some((seconds * b) / 8)
    ensures 8 * ((seconds * b) / 8) <= seconds * b < 8 * ((seconds * b) / 8) + 8
  {
    ParseIntOfIntToString(seconds);
  }

  /** Without content length or a non-zero bitrate, every second counts as
      125000 bytes. */
  lemma EstimateFromDuration(f: MediaFormat, seconds: int)
    requires f.contentLength.None? || f.contentLength == Some([])
    requires f.bitrate.None? || f.bitrate == Some(0)
    ensures EstimatedFileSize(Some(f), Some(IntToString(seconds))) == Some(seconds * 125000)
  {
    ParseIntOfIntToString(seconds);
  }

  /** A length that does not parse makes the estimate `NaN`. */
  lemma EstimateWithoutLength(f: MediaFormat, text: string)
    requires f.contentLength.None? && ParseInt(text).None?
    ensures EstimatedFileSize(Some(f), Some(text)).None?
  {
  }
}
