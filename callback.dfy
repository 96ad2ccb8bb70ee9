/** The short URL token and the `callback_data` strings carried by the inline
    keyboard buttons (src/bot.js:199-221, 238-277, 299). */
module Callback {
  import opened Text
  import opened Base64

  datatype Format = Mp4 | Mp3 {
    function Name(): (s: string)
      ensures |s| == 3 && NotIn('_', s)
    {
      if Mp4? then "mp4" else "mp3"
    }
  }

  /** `Buffer.from(url).toString('base64').substring(0, 20)`. */
  function Token(url: string): (r: string)
    ensures var e := Encode(Utf8(url)); |r| == (if |e| <= 20 then |e| else 20) && r == e[..|r|]
  {
    First20Chars(Encode(Utf8(url)))
  }

  /** `substring(0, 20)`. */
  function First20Chars(text: string): (r: string)
    ensures |r| <= 20 && |r| <= |text| && r == text[..|r|]
  {
    if |text| <= 20 then text else text[..20]
  }

  /** A token is at most 20 characters of base 64 text, so it never contains `_`. */
  lemma TokenShape(url: string)
    ensures |Token(url)| <= 20
    ensures forall i :: 0 <= i < |Token(url)| ==> IsBase64Char(Token(url)[i])
    ensures NotIn('_', Token(url))
  {
    EncodeChars(Utf8(url));
  }

  /** The token depends on the first 15 bytes of the URL only. */
  lemma TokenFirst15Bytes(u: string, v: string)
    requires |Utf8(u)| >= 15 && |Utf8(v)| >= 15
    requires Utf8(u)[..15] == Utf8(v)[..15]
    ensures Token(u) == Token(v)
  {
    var a, b := Utf8(u), Utf8(v);
    First20(a);
    First20(b);
    assert First20Chars(Encode(a)) == Encode(a[..15]);
    assert First20Chars(Encode(b)) == Encode(b[..15]);
  }

  /** The first 20 characters of the text of at least 15 bytes are the text of those 15 bytes. */
  lemma First20(bs: seq<Byte>)
    requires |bs| >= 15
    ensures |Encode(bs)| >= 20 && Encode(bs)[..20] == Encode(bs[..15])
  {
    EncodePrefix(bs, 5);
  }

  /** Once a prefix is 15 bytes long, nothing appended to it changes the token. */
  lemma TokenIgnoresSuffix(prefix: string, suffix: string)
    requires |Utf8(prefix)| >= 15
    ensures Token(prefix + suffix) == Token(prefix)
  {
    Utf8Append(prefix, suffix);
    assert Utf8(prefix + suffix)[..15] == Utf8(prefix)[..15];
    TokenFirst15Bytes(prefix + suffix, prefix);
  }

  lemma LongAsciiPrefix(p: string)
    requires |p| == 15 && IsAscii(p)
    ensures |Utf8(p)| >= 15
  {
    Utf8Ascii(p);
  }

  /** Two URLs that agree on their first 15 ASCII characters share a token. */
  lemma SharedAsciiPrefix(p: string, s: string, t: string)
    requires |p| == 15 && IsAscii(p)
    ensures Token(p + s) == Token(p + t)
  {
    LongAsciiPrefix(p);
    TokenIgnoresSuffix(p, s);
    TokenIgnoresSuffix(p, t);
  }

  /** Every URL beginning `https://www.you` has the same token, and so has every
      URL beginning `https://youtu.b`. */
  lemma CommonUrlPrefixesShareToken(s: string, t: string)
    ensures Token("https://www.you" + s) == Token("https://www.you" + t)
    ensures Token("https://youtu.b" + s) == Token("https://youtu.b" + t)
  {
    SharedAsciiPrefix("https://www.you", s, t);
    SharedAsciiPrefix("https://youtu.b", s, t);
  }

  // ---------------------------------------------------------------------------

  /** `mp4_<token>` / `mp3_<token>` (src/bot.js:216-217). */
  function ChoiceData(f: Format, token: string): string
  {
    f.Name() + "_" + token
  }

  /** `cancel_<token>` (src/bot.js:220). */
  function CancelData(token: string): string
  {
    "cancel_" + token
  }

  /** The download id `<chatId>_<Date.now()>` (src/bot.js:285). */
  function DownloadId(chat: int, now: int): string
  {
    IntToString(chat) + "_" + IntToString(now)
  }

  /** `stop_<downloadId>` (src/bot.js:299). */
  function StopData(downloadId: string): string
  {
    "stop_" + downloadId
  }

  /** What `handleCallbackQuery` makes of the data: the format and the token for
      `mp4_`/`mp3_`, the second `_`-separated piece for `cancel_` and `stop_`. */
  datatype Action =
    | Choose(format: Format, token: string)
    | CancelChoice(token: string)
    | Stop(downloadId: string)
    | Ignore

  function SecondPiece(data: string, head: string): (r: string)
    requires |head| >= 1 && NotIn('_', head) && StartsWith(data, head + "_")
    ensures Split(data, '_')[0] == head && |Split(data, '_')| >= 2 && r == Split(data, '_')[1]
  {
    var n := |head|;
    assert data == head + ['_'] + data[n + 1..] by {
      assert data[..n + 1] == head + "_";
    }
    SplitAfter(head, '_', data[n + 1..]);
    Split(data, '_')[1]
  }

  /** src/bot.js:238-277: the prefixes are tested in this order and the pieces
      are taken from `data.split('_')`. */
  function Parse(data: string): (r: Action)
    ensures r.Ignore? <==>
      !(StartsWith(data, "mp4_") || StartsWith(data, "mp3_") || StartsWith(data, "cancel_") || StartsWith(data, "stop_"))
  {
    if StartsWith(data, "mp4_") then Choose(Mp4, SecondPiece(data, "mp4"))
    else if StartsWith(data, "mp3_") then Choose(Mp3, SecondPiece(data, "mp3"))
    else if StartsWith(data, "cancel_") then CancelChoice(SecondPiece(data, "cancel"))
    else if StartsWith(data, "stop_") then Stop(SecondPiece(data, "stop"))
    else Ignore
  }

  lemma ChoiceDataSplits(f: Format, token: string)
    requires NotIn('_', token)
    ensures Split(ChoiceData(f, token), '_') == [f.Name(), token]
  {
    SplitAfter(f.Name(), '_', token);
    SplitNoSep(token, '_');
  }

  /** A format button parses back into exactly its format and token. */
  lemma {:induction false} ParseChoiceData(f: Format, token: string)
    requires NotIn('_', token)
    ensures Parse(ChoiceData(f, token)) == Choose(f, token)
  {
    var data := ChoiceData(f, token);
    ChoiceDataSplits(f, token);
    assert data[..4] == f.Name() + "_";
    if f.Mp3? {
      assert data[2] == '3';
    }
  }

  /** A cancel button parses back into its token. */
  lemma {:induction false} ParseCancelData(token: string)
    requires NotIn('_', token)
    ensures Parse(CancelData(token)) == CancelChoice(token)
  {
    var data := CancelData(token);
    assert data[..7] == "cancel_";
    assert data == "cancel" + ['_'] + token;
    SplitAfter("cancel", '_', token);
    SplitNoSep(token, '_');
  }

  /** A stop button yields the chat id part of the download id, not the whole id. */
  lemma {:induction false} ParseStopData(chat: int, now: int)
    ensures Parse(StopData(DownloadId(chat, now))) == Stop(IntToString(chat))
  {
    var c := IntToString(chat);
    var t := IntToString(now);
    var data := StopData(DownloadId(chat, now));
    assert data == "stop" + ['_'] + (c + ['_'] + t);
    assert data[..5] == "stop_";
    assert NotIn('_', c) by {
      if chat < 0 {
        assert c == "-" + NatToString(-chat);
      }
    }
    SplitAfter("stop", '_', c + ['_'] + t);
    SplitAfter(c, '_', t);
  }

  /** The buttons of the format prompt: both format buttons carry the token and
      parse back to (format, token), and they stay within 24 characters,
      well under the 64 bytes Telegram allows for `callback_data`. */
  lemma PromptButtonsRoundTrip(url: string, f: Format)
    ensures Parse(ChoiceData(f, Token(url))) == Choose(f, Token(url))
    ensures |ChoiceData(f, Token(url))| <= 24
    ensures Parse(CancelData(Token(url))) == CancelChoice(Token(url))
  {
    TokenShape(url);
    ParseChoiceData(f, Token(url));
    ParseCancelData(Token(url));
  }
}
