/** The helpers of src/utils.js: URL recognition and video id extraction,
    file-name sanitising and unique names, duration formatting, the size check,
    extension classification, the progress bar, quality parsing and the
    retry-with-backoff schedule. */
module Utils {
  import opened Text

  // ---------------------------------------------------------------------------
  // isValidYouTubeUrl (src/utils.js:7-10)

  const Schemes: seq<string> := ["", "http://", "https://"]
  const WwwPrefixes: seq<string> := ["", "www."]
  const Hosts: seq<string> :=
    ["youtube.com/watch?v=", "youtube.com/embed/", "youtube.com/v/", "youtu.be/", "m.youtube.com/watch?v="]

  /** `[\w-]`: an ASCII letter, digit, underscore or hyphen. */
  predicate IsWordOrDash(c: char) {
    'a' <= c <= 'z' || 'A' <= c <= 'Z' || '0' <= c <= '9' || c == '_' || c == '-'
  }

  /** The URL starts with `scheme + www + host` and one `[\w-]` character follows. */
  predicate MatchesWith(url: string, scheme: string, www: string, host: string) {
    var p := scheme + www + host;
    |p| < |url| && url[..|p|] == p && IsWordOrDash(url[|p|])
  }

  /** The regular expression is anchored at the start only, so it accepts exactly
      when some choice of the optional scheme, the optional `www.` and one of the
      five host/path prefixes is followed by at least one `[\w-]` character. */
  predicate IsValidYouTubeUrl(url: string)
    ensures IsValidYouTubeUrl(url) ==> |url| >= 10
  {
    exists i, j, k | 0 <= i < |Schemes| && 0 <= j < |WwwPrefixes| && 0 <= k < |Hosts| ::
      MatchesWith(url, Schemes[i], WwwPrefixes[j], Hosts[k])
  }

  /** With no end anchor, anything may follow an accepted URL. */
  lemma AcceptsAnySuffix(url: string, suffix: string)
    requires IsValidYouTubeUrl(url)
    ensures IsValidYouTubeUrl(url + suffix)
  {
    var i, j, k :| 0 <= i < |Schemes| && 0 <= j < |WwwPrefixes| && 0 <= k < |Hosts| &&
      MatchesWith(url, Schemes[i], WwwPrefixes[j], Hosts[k]);
    var p := Schemes[i] + WwwPrefixes[j] + Hosts[k];
    assert (url + suffix)[..|p|] == url[..|p|];
    assert MatchesWith(url + suffix, Schemes[i], WwwPrefixes[j], Hosts[k]);
  }

  /** Every combination of the optional scheme, the optional `www.` and a host
      prefix is accepted once an id character follows. */
  lemma AcceptsEveryPrefix(i: nat, j: nat, k: nat, id: string)
    requires i < |Schemes| && j < |WwwPrefixes| && k < |Hosts|
    requires |id| > 0 && IsWordOrDash(id[0])
    ensures IsValidYouTubeUrl(Schemes[i] + WwwPrefixes[j] + Hosts[k] + id)
  {
    var p := Schemes[i] + WwwPrefixes[j] + Hosts[k];
    var url := p + id;
    assert url[..|p|] == p && url[|p|] == id[0];
    assert MatchesWith(url, Schemes[i], WwwPrefixes[j], Hosts[k]);
  }

  /** The usage example is accepted. */
  lemma AcceptsWatchUrl(id: string)
    requires id == "dQw4w9WgXcQ"
    ensures IsValidYouTubeUrl("https://www.youtube.com/watch?v=" + id)
  {
    assert Schemes[2] + WwwPrefixes[1] + Hosts[0] == "https://www.youtube.com/watch?v=";
    AcceptsEveryPrefix(2, 1, 0, id);
  }

  /** Every accepted URL has `y` or `m` right after the optional scheme and `www.`. */
  lemma {:induction false} AcceptedHostStart(url: string)
    requires IsValidYouTubeUrl(url)
    ensures exists i, j | 0 <= i < |Schemes| && 0 <= j < |WwwPrefixes| ::
      var n := |Schemes[i] + WwwPrefixes[j]|;
      n < |url| && url[..n] == Schemes[i] + WwwPrefixes[j] && (url[n] == 'y' || url[n] == 'm')
  {
    var i, j, k :| 0 <= i < |Schemes| && 0 <= j < |WwwPrefixes| && 0 <= k < |Hosts| &&
      MatchesWith(url, Schemes[i], WwwPrefixes[j], Hosts[k]);
    var pre := Schemes[i] + WwwPrefixes[j];
    var p := pre + Hosts[k];
    assert url[..|pre|] == p[..|pre|] == pre;
    assert url[|pre|] == p[|pre|] == Hosts[k][0];
  }

  /** Every host prefix spells `youtu`, so every accepted URL contains a `y`. */
  lemma AcceptedHasY(url: string)
    requires IsValidYouTubeUrl(url)
    ensures !NotIn('y', url)
  {
    var i, j, k :| 0 <= i < |Schemes| && 0 <= j < |WwwPrefixes| && 0 <= k < |Hosts| &&
      MatchesWith(url, Schemes[i], WwwPrefixes[j], Hosts[k]);
    var pre := Schemes[i] + WwwPrefixes[j];
    var p := pre + Hosts[k];
    var off := if k == 4 then 2 else 0;
    assert Hosts[k][off] == 'y';
    assert p[|pre| + off] == 'y';
    assert url[|pre| + off] == p[|pre| + off];
  }

  /** A URL of another site is refused: `https://example.com` has no `y` at all. */
  lemma RejectsOtherSite(url: string)
    requires url == "https://example.com"
    ensures !IsValidYouTubeUrl(url)
  {
    assert NotIn('y', url);
    if IsValidYouTubeUrl(url) {
      AcceptedHasY(url);
      assert false;
    }
  }

  // ---------------------------------------------------------------------------
  // sanitizeFilename (src/utils.js:15-22)

  /** The characters `/[<>:"/\\|?*]/g` removes. */
  predicate IsForbidden(c: char) {
    c == '<' || c == '>' || c == ':' || c == '"' || c == '/' || c == '\\' || c == '|' || c == '?' || c == '*'
  }

  predicate NoForbidden(s: string) { forall i :: 0 <= i < |s| ==> !IsForbidden(s[i]) }

  /** Every white-space character is a plain space and no two spaces are adjacent. */
  predicate SingleSpaced(s: string) {
    (forall i :: 0 <= i < |s| ==> IsJsSpace(s[i]) ==> s[i] == ' ') &&
    (forall i :: 0 <= i < |s| - 1 ==> !(s[i] == ' ' && s[i + 1] == ' '))
  }

  function RemoveForbidden(s: string): (r: string)
    ensures NoForbidden(r) && |r| <= |s|
    ensures NoForbidden(s) ==> r == s
    ensures forall i :: 0 <= i < |r| ==> r[i] in s
    decreases |s|
  {
    if s == [] then []
    else if IsForbidden(s[0]) then RemoveForbidden(s[1..])
    else [s[0]] + RemoveForbidden(s[1..])
  }

  lemma {:induction false} RemoveForbiddenAppend(a: string, b: string)
    ensures RemoveForbidden(a + b) == RemoveForbidden(a) + RemoveForbidden(b)
    decreases |a|
  {
    if a == [] {
      assert a + b == b;
    } else {
      assert (a + b)[1..] == a[1..] + b;
      RemoveForbiddenAppend(a[1..], b);
    }
  }

  /** Drops the white space at the front. */
  function SkipSpaces(s: string): (r: string)
    ensures |r| <= |s| && r == s[|s| - |r|..]
    ensures s != [] && IsJsSpace(s[0]) ==> |r| < |s|
    ensures r == [] || !IsJsSpace(r[0])
    decreases |s|
  {
    if s != [] && IsJsSpace(s[0]) then SkipSpaces(s[1..]) else s
  }

  /** `.replace(/\s+/g, ' ')`: every maximal run of white space becomes one space. */
  function Collapse(s: string): (r: string)
    ensures SingleSpaced(r)
    ensures NoForbidden(s) ==> NoForbidden(r)
    ensures s == [] <==> r == []
    ensures s != [] && !IsJsSpace(s[0]) ==> r[0] == s[0]
    ensures s != [] && IsJsSpace(s[0]) ==> r[0] == ' '
    ensures |r| <= |s|
    decreases |s|
  {
    if s == [] then []
    else if IsJsSpace(s[0]) then
      var rest := SkipSpaces(s);
      assert NoForbidden(s) ==> NoForbidden(rest);
      [' '] + Collapse(rest)
    else [s[0]] + Collapse(s[1..])
  }

  /** Drops the white space at the end. */
  function TrimEnd(s: string): (r: string)
    ensures |r| <= |s| && r == s[..|r|]
    ensures r == [] || !IsJsSpace(r[|r| - 1])
    decreases |s|
  {
    if s != [] && IsJsSpace(s[|s| - 1]) then TrimEnd(s[..|s| - 1]) else s
  }

  /** `.trim()`. */
  function Trim(s: string): (r: string)
    ensures r == [] || (!IsJsSpace(r[0]) && !IsJsSpace(r[|r| - 1]))
  {
    var t := TrimStart(s);
    var r := TrimEnd(t);
    assert r != [] ==> r[0] == t[0];
    r
  }

  /** A slice of a sanitised-form string is in sanitised form. */
  lemma SliceKeeps(s: string, lo: nat, hi: nat)
    requires lo <= hi <= |s|
    requires NoForbidden(s) && SingleSpaced(s)
    ensures NoForbidden(s[lo..hi]) && SingleSpaced(s[lo..hi])
  {
    var t := s[lo..hi];
    forall i | 0 <= i < |t| ensures !IsForbidden(t[i]) && (IsJsSpace(t[i]) ==> t[i] == ' ') {
      assert t[i] == s[lo + i];
    }
    forall i | 0 <= i < |t| - 1 ensures !(t[i] == ' ' && t[i + 1] == ' ') {
      assert t[i] == s[lo + i] && t[i + 1] == s[lo + i + 1];
    }
  }

  lemma TrimKeeps(s: string)
    requires NoForbidden(s) && SingleSpaced(s)
    ensures NoForbidden(Trim(s)) && SingleSpaced(Trim(s))
  {
    var t := TrimStart(s);
    SliceKeeps(s, |s| - |t|, |s|);
    var r := TrimEnd(t);
    SliceKeeps(t, 0, |r|);
  }

  /** The text between `Collapse` and the final cut to 100 characters. */
  function Trimmed(filename: string): string
  {
    Trim(Collapse(RemoveForbidden(filename)))
  }

  lemma TrimmedShape(filename: string)
    ensures var t := Trimmed(filename);
      NoForbidden(t) && SingleSpaced(t) && (t == [] || t[0] != ' ')
  {
    var c := Collapse(RemoveForbidden(filename));
    TrimKeeps(c);
    var t := Trim(c);
    assert t == [] || !IsJsSpace(t[0]);
  }

  /** `sanitizeFilename`: at most 100 characters, none of `<>:"/\|?*`, every white-space
      run a single space and no white space in front. */
  function SanitizeFilename(filename: string): (r: string)
    ensures |r| <= 100
    ensures NoForbidden(r)
    ensures SingleSpaced(r)
    ensures r == [] || r[0] != ' '
    ensures |r| <= |Trimmed(filename)| && r == Trimmed(filename)[..|r|]
    ensures |r| == if |Trimmed(filename)| <= 100 then |Trimmed(filename)| else 100
  {
    var t := Trimmed(filename);
    TrimmedShape(filename);
    if |t| <= 100 then t
    else
      SliceKeeps(t, 0, 100);
      t[..100]
  }

  lemma {:induction false} CollapseIdentity(s: string)
    requires SingleSpaced(s)
    ensures Collapse(s) == s
    decreases |s|
  {
    if s != [] {
      SingleSpacedTail(s);
      if IsJsSpace(s[0]) {
        SkipOneSpace(s);
      }
      CollapseIdentity(s[1..]);
      assert s == [s[0]] + s[1..];
    }
  }

  lemma SingleSpacedTail(s: string)
    requires s != [] && SingleSpaced(s)
    ensures SingleSpaced(s[1..])
  {
    var t := s[1..];
    forall i | 0 <= i < |t| ensures IsJsSpace(t[i]) ==> t[i] == ' ' {
      assert t[i] == s[i + 1];
    }
    forall i | 0 <= i < |t| - 1 ensures !(t[i] == ' ' && t[i + 1] == ' ') {
      assert t[i] == s[i + 1] && t[i + 1] == s[i + 2];
    }
  }

  /** In single-spaced text a space is followed by a non-space, so one step skips the run. */
  lemma SkipOneSpace(s: string)
    requires s != [] && SingleSpaced(s) && IsJsSpace(s[0])
    ensures s[0] == ' ' && SkipSpaces(s) == s[1..]
  {
    if |s| > 1 {
      assert !(s[0] == ' ' && s[1] == ' ');
      assert !IsJsSpace(s[1]);
    }
  }

  lemma {:induction false} TrimIdentity(s: string)
    requires s == [] || (!IsJsSpace(s[0]) && !IsJsSpace(s[|s| - 1]))
    ensures Trim(s) == s
  {
  }

  /** Sanitising a string that is already in sanitised form only cuts it to 100 characters. */
  lemma SanitizeNormalForm(s: string)
    requires NoForbidden(s) && SingleSpaced(s)
    requires s == [] || (!IsJsSpace(s[0]) && !IsJsSpace(s[|s| - 1]))
    ensures SanitizeFilename(s) == if |s| <= 100 then s else s[..100]
  {
    assert RemoveForbidden(s) == s;
    CollapseIdentity(s);
    TrimIdentity(s);
    assert Trimmed(s) == s;
  }

  /** Sanitising twice changes nothing when the first pass did not have to cut. */
  lemma SanitizeIdempotent(filename: string)
    requires |Trimmed(filename)| <= 100
    ensures SanitizeFilename(SanitizeFilename(filename)) == SanitizeFilename(filename)
  {
    var r := SanitizeFilename(filename);
    assert r == Trimmed(filename);
    SanitizeNormalForm(r);
  }

  /** ... but the cut can leave a space at the end, which a second pass trims:
      99 letters, a space and one more letter. */
  lemma {:induction false} CutLeavesSpace(a: string)
    requires |a| == 99 && NoForbidden(a) && SingleSpaced(a) && !IsJsSpace(a[0]) && !IsJsSpace(a[98])
    ensures SanitizeFilename(a + " b") == a + " "
    ensures SanitizeFilename(a + " ") == a
  {
    var s := a + " b";
    assert NoForbidden(s) && SingleSpaced(s) by {
      assert forall i :: 0 <= i < 99 ==> s[i] == a[i];
    }
    SanitizeNormalForm(s);
    assert s[..100] == a + " ";
    var t := a + " ";
    assert NoForbidden(t) && SingleSpaced(t) by {
      assert forall i :: 0 <= i < 99 ==> t[i] == a[i];
    }
    CollapseIdentity(t);
    assert TrimStart(t) == t;
    assert t[..|t| - 1] == a;
    assert TrimEnd(t) == a;
  }

  /** ... but the cut can leave a space at the end, which a second pass trims:
      99 letters, a space and one more letter. */
  lemma SanitizeNotIdempotentAfterCut()
    ensures var s := seq(99, _ => 'a') + " b";
      SanitizeFilename(s) == seq(99, _ => 'a') + " " &&
      SanitizeFilename(SanitizeFilename(s)) == seq(99, _ => 'a')
  {
    CutLeavesSpace(seq(99, _ => 'a'));
  }

  /** Removing one forbidden character between two clean pieces joins the pieces. */
  lemma RemoveOneForbidden(a: string, c: char, b: string)
    requires NoForbidden(a) && IsForbidden(c) && NoForbidden(b)
    ensures RemoveForbidden(a + [c] + b) == a + b
  {
    RemoveForbiddenAppend(a + [c], b);
    RemoveForbiddenAppend(a, [c]);
  }

  /** A title that is clean apart from one forbidden character loses just that character. */
  lemma SanitizeDropsOne(a: string, c: char, b: string)
    requires IsForbidden(c) && NoForbidden(a) && NoForbidden(b)
    requires SingleSpaced(a + b) && |a + b| <= 100
    requires a + b == [] || (!IsJsSpace((a + b)[0]) && !IsJsSpace((a + b)[|a + b| - 1]))
    ensures SanitizeFilename(a + [c] + b) == a + b
  {
    RemoveOneForbidden(a, c, b);
    assert RemoveForbidden(a + b) == a + b;
    SanitizeSameAfterRemoval(a + [c] + b, a + b);
    SanitizeNormalForm(a + b);
  }

  lemma SanitizeSameAfterRemoval(x: string, y: string)
    requires RemoveForbidden(x) == RemoveForbidden(y)
    ensures SanitizeFilename(x) == SanitizeFilename(y)
  {
    assert Trimmed(x) == Trimmed(y);
  }

  /** The usage example: the colon goes and the spaces stay. */
  lemma SanitizeExample(a: string, b: string)
    requires a == "Test Video" && b == " Amazing! (2024)"
    ensures SanitizeFilename(a + ":" + b) == "Test Video Amazing! (2024)"
  {
    assert a + ":" + b == a + [':'] + b;
    assert a + b == "Test Video Amazing! (2024)";
    ExampleClean(a, b);
    ExampleSpacing(a + b);
    SanitizeDropsOne(a, ':', b);
  }

  lemma ExampleClean(a: string, b: string)
    requires a == "Test Video" && b == " Amazing! (2024)"
    ensures NoForbidden(a) && NoForbidden(b)
  {
  }

  lemma ExampleSpacing(r: string)
    requires r == "Test Video Amazing! (2024)"
    ensures SingleSpaced(r) && !IsJsSpace(r[0]) && !IsJsSpace(r[|r| - 1])
  {
  }

  // ---------------------------------------------------------------------------
  // formatDuration (src/utils.js:40-49, and the same rule at src/bot.js:431-440)

  /** JavaScript's `%`: the remainder takes the sign of the dividend. */
  function JsRem(a: int, b: int): (r: int)
    requires b > 0
    ensures a >= 0 ==> r == a % b
  {
    if a >= 0 then a % b else -((-a) % b)
  }

  /** `H:MM:SS` when there is at least one whole hour, `M:SS` otherwise. */
  function FormatDuration(seconds: int): (r: string)
    ensures ':' in r
    ensures seconds >= 0 ==> |r| >= 4 && r[|r| - 3] == ':' && IsDigit(r[|r| - 2]) && IsDigit(r[|r| - 1])
  {
    var hrs := seconds / 3600;
    var mins := JsRem(seconds, 3600) / 60;
    var secs := JsRem(seconds, 60);
    assert seconds >= 0 ==> var d := PadStart2(IntToString(secs)); |d| == 2 && AllDigits(d) by {
      if seconds >= 0 {
        TwoDigits(secs);
      }
    }
    if hrs > 0 then IntToString(hrs) + ":" + PadStart2(IntToString(mins)) + ":" + PadStart2(IntToString(secs))
    else IntToString(mins) + ":" + PadStart2(IntToString(secs))
  }

  /** Reads `H:MM:SS` or `M:SS` back into seconds. */
  function ParseDuration(s: string): Option<int>
  {
    ParseFields(Split(s, ':'))
  }

  function ParseFields(parts: seq<string>): Option<int>
  {
    if !(forall k :: 0 <= k < |parts| ==> |parts[k]| > 0 && AllDigits(parts[k])) then None
    else if |parts| == 3 then Some(DecimalValue(parts[0]) * 3600 + DecimalValue(parts[1]) * 60 + DecimalValue(parts[2]))
    else if |parts| == 2 then Some(DecimalValue(parts[0]) * 60 + DecimalValue(parts[1]))
    else None
  }

  /** A two-digit field for a value below 60. */
  lemma {:induction false} TwoDigits(x: nat)
    requires x < 60
    ensures var d := PadStart2(NatToString(x));
      |d| == 2 && AllDigits(d) && NotIn(':', d) && DecimalValue(d) == x
  {
    var d := PadStart2(NatToString(x));
    DecimalOfNatToString(x);
    if x < 10 {
      assert d == ['0', DigitChar(x)];
      assert d[..1] == ['0'];
    }
  }

  /** Whole hours, the minutes of the rest and the seconds put the total back together. */
  lemma DurationFields(seconds: nat)
    ensures (seconds % 3600) / 60 < 60
    ensures seconds == (seconds / 3600) * 3600 + ((seconds % 3600) / 60) * 60 + seconds % 60
  {
    var r := seconds % 3600;
    assert seconds == 3600 * (seconds / 3600) + r;
    assert r == 60 * (r / 60) + r % 60;
    assert seconds % 60 == r % 60 by {
      assert seconds == 60 * (60 * (seconds / 3600) + r / 60) + r % 60;
    }
  }

  /** The fields of a duration text, for digit fields without `:`. */
  lemma SplitFields(a: string, b: string, c: string)
    requires AllDigits(a) && AllDigits(b) && AllDigits(c)
    ensures Split(a + ":" + b, ':') == [a, b]
    ensures Split(a + ":" + b + ":" + c, ':') == [a, b, c]
  {
    SplitNoSep(b, ':');
    SplitNoSep(c, ':');
    SplitAfter(a, ':', b);
    assert a + ":" + b + ":" + c == a + [':'] + (b + [':'] + c);
    SplitAfter(a, ':', b + [':'] + c);
    SplitAfter(b, ':', c);
  }

  lemma ParseThreeFields(a: string, b: string, c: string)
    requires |a| > 0 && |b| > 0 && |c| > 0 && AllDigits(a) && AllDigits(b) && AllDigits(c)
    ensures ParseFields([a, b, c]) == Some(DecimalValue(a) * 3600 + DecimalValue(b) * 60 + DecimalValue(c))
  {
    var parts := [a, b, c];
    forall k | 0 <= k < |parts| ensures |parts[k]| > 0 && AllDigits(parts[k]) {
      if k == 0 {
        assert parts[k] == a;
      } else if k == 1 {
        assert parts[k] == b;
      } else {
        assert parts[k] == c;
      }
    }
  }

  lemma ParseTwoFields(a: string, b: string)
    requires |a| > 0 && |b| > 0 && AllDigits(a) && AllDigits(b)
    ensures ParseFields([a, b]) == Some(DecimalValue(a) * 60 + DecimalValue(b))
  {
    var parts := [a, b];
    forall k | 0 <= k < |parts| ensures |parts[k]| > 0 && AllDigits(parts[k]) {
      if k == 0 {
        assert parts[k] == a;
      } else {
        assert parts[k] == b;
      }
    }
  }

  /** For a non-negative count the JavaScript remainders are the ordinary ones. */
  lemma FormatDurationNat(seconds: nat)
    ensures var m := PadStart2(NatToString((seconds % 3600) / 60));
      var sc := PadStart2(NatToString(seconds % 60));
      FormatDuration(seconds) ==
        if seconds >= 3600 then NatToString(seconds / 3600) + ":" + m + ":" + sc
        else NatToString((seconds % 3600) / 60) + ":" + sc
  {
  }

  /** The duration text has three fields from one hour on and two below, and
      reading it back gives the number of seconds, for every non-negative integer. */
  lemma {:induction false} DurationRoundTrip(seconds: nat)
    ensures |Split(FormatDuration(seconds), ':')| == (if seconds >= 3600 then 3 else 2)
    ensures var parts := Split(FormatDuration(seconds), ':');
      AllDigits(parts[0]) && DecimalValue(parts[0]) == (if seconds >= 3600 then seconds / 3600 else seconds / 60) &&
      forall k :: 1 <= k < |parts| ==> |parts[k]| == 2 && AllDigits(parts[k]) && DecimalValue(parts[k]) < 60
    ensures ParseDuration(FormatDuration(seconds)) == Some(seconds)
  {
    var hrs := seconds / 3600;
    var mins := (seconds % 3600) / 60;
    var secs := seconds % 60;
    DurationFields(seconds);
    TwoDigits(mins);
    TwoDigits(secs);
    FormatDurationNat(seconds);
    var m := PadStart2(NatToString(mins));
    var sc := PadStart2(NatToString(secs));
    if seconds >= 3600 {
      var h := NatToString(hrs);
      DecimalOfNatToString(hrs);
      SplitFields(h, m, sc);
      ParseThreeFields(h, m, sc);
    } else {
      var mm := NatToString(mins);
      DecimalOfNatToString(mins);
      SplitFields(mm, sc, sc);
      ParseTwoFields(mm, sc);
    }
  }

  // ---------------------------------------------------------------------------
  // validateFileSize (src/utils.js:91-99)

  /** The result of `validateFileSize`; the error text is abstracted to the numbers it names. */
  datatype SizeCheck = SizeOk | TooLarge(name: string, size: int, limit: int)

  function ValidateFileSize(fileSize: int, maxSize: int, filename: string := "file"): (r: SizeCheck)
    ensures r.SizeOk? <==> fileSize <= maxSize
    ensures r.TooLarge? ==> r == TooLarge(filename, fileSize, maxSize)
  {
    if fileSize > maxSize then TooLarge(filename, fileSize, maxSize) else SizeOk
  }

  /** `mbToBytes`: a whole number of mebibytes. */
  function MbToBytes(mb: int): (r: int)
    ensures r % 1048576 == 0 && r / 1048576 == mb
  {
    mb * 1048576
  }

  // ---------------------------------------------------------------------------
  // generateUniqueFilename (src/utils.js:104-116)

  /** `path.join(directory, name)` for a name without `/`. */
  function PathJoin(directory: string, name: string): string
  {
    directory + "/" + name
  }

  /** The name tried at round `k`: `base.ext` first, then `base_k.ext`. */
  function Candidate(base: string, extension: string, k: nat): string
  {
    if k == 0 then base + "." + extension else base + "_" + NatToString(k) + "." + extension
  }

  lemma CandidateInjective(directory: string, base: string, extension: string, j: nat, k: nat)
    requires PathJoin(directory, Candidate(base, extension, j)) == PathJoin(directory, Candidate(base, extension, k))
    ensures j == k
  {
    var p := directory + "/" + base;
    var x := PathJoin(directory, Candidate(base, extension, j));
    if j != 0 && k != 0 {
      var a, b := NatToString(j), NatToString(k);
      assert x == (p + "_") + a + ("." + extension);
      assert x == (p + "_") + b + ("." + extension);
      SameFrame(p + "_", a, b, "." + extension);
      NatToStringInjective(j, k);
    }
  }

  lemma SameFrame(front: string, a: string, b: string, back: string)
    requires front + a + back == front + b + back
    ensures a == b
  {
    var x := front + a + back;
    assert |a| == |b|;
    assert a == x[|front|..|front| + |a|];
    assert b == (front + b + back)[|front|..|front| + |b|];
  }

  /** The paths of the first `n` candidates all exist. */
  predicate AllTaken(directory: string, base: string, extension: string, existing: set<string>, n: nat) {
    forall j :: 0 <= j < n ==> PathJoin(directory, Candidate(base, extension, j)) in existing
  }

  lemma AllTakenStep(directory: string, base: string, extension: string, existing: set<string>, n: nat)
    requires AllTaken(directory, base, extension, existing, n)
    requires PathJoin(directory, Candidate(base, extension, n)) in existing
    ensures AllTaken(directory, base, extension, existing, n + 1)
  {
  }

  /** Distinct candidates are distinct paths, so `n` existing candidates need `n` existing paths. */
  lemma {:induction false} CandidatesBound(directory: string, base: string, extension: string, existing: set<string>, n: nat)
    requires AllTaken(directory, base, extension, existing, n)
    ensures n <= |existing|
    decreases n
  {
    if n > 0 {
      var last := PathJoin(directory, Candidate(base, extension, n - 1));
      var rest := existing - {last};
      forall j | 0 <= j < n - 1 ensures PathJoin(directory, Candidate(base, extension, j)) in rest {
        if PathJoin(directory, Candidate(base, extension, j)) == last {
          CandidateInjective(directory, base, extension, j, n - 1);
        }
      }
      CandidatesBound(directory, base, extension, rest, n - 1);
    }
  }

  /** `generateUniqueFilename` over the set of paths that exist: the first free
      candidate for the sanitised base name, so the returned path does not exist
      and every earlier candidate does. */
  method GenerateUniqueFilename(directory: string, baseName: string, extension: string, existing: set<string>)
    returns (filename: string, filePath: string, ghost k: nat)
    ensures filePath == PathJoin(directory, filename) && filePath !in existing
    ensures filename == Candidate(SanitizeFilename(baseName), extension, k)
    ensures AllTaken(directory, SanitizeFilename(baseName), extension, existing, k)
  {
    filename, filePath, k := FirstFreeCandidate(directory, SanitizeFilename(baseName), extension, existing);
  }

  /** The probing loop: `base.ext`, then `base_1.ext`, `base_2.ext`, ... until a path is free. */
  method FirstFreeCandidate(directory: string, base: string, extension: string, existing: set<string>)
    returns (filename: string, filePath: string, ghost k: nat)
    ensures filePath == PathJoin(directory, filename) && filePath !in existing
    ensures filename == Candidate(base, extension, k)
    ensures AllTaken(directory, base, extension, existing, k)
  {
    var counter := 1;
    filename := base + "." + extension;
    filePath := PathJoin(directory, filename);
    while filePath in existing
      invariant 1 <= counter <= |existing| + 1
      invariant filename == Candidate(base, extension, counter - 1)
      invariant filePath == PathJoin(directory, filename)
      invariant AllTaken(directory, base, extension, existing, counter - 1)
      decreases |existing| + 1 - counter
    {
      AllTakenStep(directory, base, extension, existing, counter - 1);
      CandidatesBound(directory, base, extension, existing, counter);
      filename := base + "_" + NatToString(counter) + "." + extension;
      filePath := PathJoin(directory, filename);
      counter := counter + 1;
    }
    k := counter - 1;
  }

  // ---------------------------------------------------------------------------
  // extractVideoId (src/utils.js:121-125)

  /** `[^"&?\/\s]`: a character the eleven-character id may contain. */
  predicate IsIdChar(c: char) {
    !(c == '"' || c == '&' || c == '?' || c == '/' || IsJsSpace(c))
  }

  /** The characters `.` does not match. */
  predicate IsLineTerminator(c: char) {
    c == '\n' || c == '\r' || c == '\U{2028}' || c == '\U{2029}'
  }

  /** Eleven id characters start at `i`. */
  predicate IdAt(t: string, i: nat) {
    i + 11 <= |t| && forall k :: i <= k < i + 11 ==> IsIdChar(t[k])
  }

  predicate At(t: string, i: nat, w: string) {
    i + |w| <= |t| && t[i..i + |w|] == w
  }

  /** The first index from `i` on holding `/`, or `|t|`. */
  function SlashFrom(t: string, i: nat): (r: nat)
    requires i <= |t|
    ensures i <= r <= |t| && (r < |t| ==> t[r] == '/')
    ensures forall k :: i <= k < r ==> t[k] != '/'
    decreases |t| - i
  {
    if i == |t| || t[i] == '/' then i else SlashFrom(t, i + 1)
  }

  /** The first index from `i` on holding a line terminator, or `|t|`. */
  function LineEnd(t: string, i: nat): (r: nat)
    requires i <= |t|
    ensures i <= r <= |t|
    ensures forall k :: i <= k < r ==> !IsLineTerminator(t[k])
    decreases |t| - i
  {
    if i == |t| || IsLineTerminator(t[i]) then i else LineEnd(t, i + 1)
  }

  /** Greedy `.+\/` followed by the id: the last `/` below `hi` and at or above `lo`
      that is followed by eleven id characters; the id starts right after it. */
  function LastSlashBeforeId(t: string, lo: nat, hi: nat): (r: Option<nat>)
    requires hi <= |t|
    ensures r.Some? ==> lo + 1 <= r.value <= hi && t[r.value - 1] == '/' && IdAt(t, r.value)
    ensures r.None? ==> forall q :: lo <= q < hi ==> !(t[q] == '/' && IdAt(t, q + 1))
    decreases hi
  {
    if hi <= lo then None
    else if t[hi - 1] == '/' && IdAt(t, hi) then Some(hi)
    else LastSlashBeforeId(t, lo, hi - 1)
  }

  /** `[?&]v=` at `m`. */
  predicate QueryAt(t: string, m: nat) {
    m + 3 <= |t| && (t[m] == '?' || t[m] == '&') && t[m + 1] == 'v' && t[m + 2] == '='
  }

  /** Greedy `.*[?&]v=` followed by the id: the last `?v=` or `&v=` starting in
      `[lo, hi)` that is followed by eleven id characters; the id starts after it. */
  function LastQueryBeforeId(t: string, lo: nat, hi: nat): (r: Option<nat>)
    requires hi <= |t|
    ensures r.Some? ==> lo + 3 <= r.value && r.value - 3 < hi && QueryAt(t, r.value - 3) && IdAt(t, r.value)
    ensures r.None? ==> forall m :: lo <= m < hi ==> !(QueryAt(t, m) && IdAt(t, m + 3))
    decreases hi
  {
    if hi <= lo then None
    else if QueryAt(t, hi - 1) && IdAt(t, hi + 2) then Some(hi + 2)
    else LastQueryBeforeId(t, lo, hi - 1)
  }

  /** Where the id starts when the pattern matches at the very start of `t`, trying
      the alternatives in the order the regular expression lists them. */
  function MatchHere(t: string): (r: Option<nat>)
    ensures r.Some? ==> IdAt(t, r.value)
  {
    if At(t, 0, "youtube.com/") then
      var h := 12;
      // [^\/]+\/.+\/
      var run := SlashFrom(t, h);
      var first := if run > h && run < |t| then LastSlashBeforeId(t, run + 2, LineEnd(t, run + 1)) else None;
      if first.Some? then first
      // (?:v|e(?:mbed)?)\/
      else if At(t, h, "v/") && IdAt(t, h + 2) then Some(h + 2)
      else if At(t, h, "embed/") && IdAt(t, h + 6) then Some(h + 6)
      else if At(t, h, "e/") && IdAt(t, h + 2) then Some(h + 2)
      // .*[?&]v=
      else LastQueryBeforeId(t, h, LineEnd(t, h))
    else if At(t, 0, "youtu.be/") && IdAt(t, 9) then Some(9)
    else None
  }

  /** The leftmost position from `p` on where the pattern matches, and the id found there. */
  function SearchFrom(s: string, p: nat): (r: Option<string>)
    requires p <= |s|
    ensures r.Some? ==> |r.value| == 11 && forall k :: 0 <= k < 11 ==> IsIdChar(r.value[k])
    decreases |s| - p
  {
    match MatchHere(s[p..])
    case Some(i) => Some(s[p..][i..i + 11])
    case None => if p == |s| then None else SearchFrom(s, p + 1)
  }

  /** `extractVideoId`: the captured group of the leftmost match, or null (`None`).
      An id is always eleven characters without `"`, `&`, `?`, `/` or white space. */
  function ExtractVideoId(url: string): (r: Option<string>)
    ensures r.Some? ==> |r.value| == 11
    ensures r.Some? ==> forall k :: 0 <= k < 11 ==> IsIdChar(r.value[k]) && r.value[k] != '"' && !IsJsSpace(r.value[k])
  {
    SearchFrom(url, 0)
  }

  /** The search over `pre + s` from inside `s` is the search over `s`. */
  lemma {:induction false} SearchShift(pre: string, s: string, i: nat)
    requires i <= |s|
    ensures SearchFrom(pre + s, |pre| + i) == SearchFrom(s, i)
    decreases |s| - i
  {
    var u := pre + s;
    assert u[|pre| + i..] == s[i..];
    if i < |s| {
      SearchShift(pre, s, i + 1);
    }
  }

  /** Positions in front of the host cannot start a match when they hold no `y`. */
  lemma {:induction false} SearchSkipsPrefix(pre: string, s: string, p: nat)
    requires p <= |pre| && NotIn('y', pre)
    ensures SearchFrom(pre + s, p) == SearchFrom(s, 0)
    decreases |pre| - p
  {
    var u := pre + s;
    if p == |pre| {
      SearchShift(pre, s, 0);
    } else {
      assert u[p..][0] == pre[p];
      assert !At(u[p..], 0, "youtube.com/") && !At(u[p..], 0, "youtu.be/") by {
        assert pre[p] != 'y';
      }
      SearchSkipsPrefix(pre, s, p + 1);
    }
  }

  /** A short link gives its id, whatever scheme is in front and whatever follows the id. */
  lemma ExtractShortLink(scheme: string, id: string, rest: string)
    requires NotIn('y', scheme)
    requires |id| == 11 && forall k :: 0 <= k < 11 ==> IsIdChar(id[k])
    ensures ExtractVideoId(scheme + "youtu.be/" + id + rest) == Some(id)
  {
    var s := "youtu.be/" + id + rest;
    assert scheme + "youtu.be/" + id + rest == scheme + s;
    SearchSkipsPrefix(scheme, s, 0);
    ShortLinkMatches(s, id, rest);
    assert s[0..] == s;
  }

  lemma ShortLinkMatches(s: string, id: string, rest: string)
    requires s == "youtu.be/" + id + rest
    requires |id| == 11 && forall k :: 0 <= k < 11 ==> IsIdChar(id[k])
    ensures MatchHere(s) == Some(9) && s[9..20] == id
  {
    assert s[..9] == "youtu.be/";
    assert !At(s, 0, "youtube.com/") by {
      assert s[5] == '.';
    }
    assert IdAt(s, 9) by {
      forall k | 9 <= k < 20 ensures IsIdChar(s[k]) {
        assert s[k] == id[k - 9];
      }
    }
    assert s[9..20] == id;
  }

  // ---------------------------------------------------------------------------
  // retryWithBackoff (src/utils.js:157-169)

  /** What one call of `fn` settles to. */
  datatype Attempt<T, E> = Succeeded(value: T) | Failed(error: E)

  /** What `retryWithBackoff` settles to: a value, the error of the last attempt,
      or `undefined` when the loop body never runs. */
  datatype RetryOutcome<T, E> = Returned(value: T) | Threw(error: E) | Undefined

  function Pow2(i: nat): (r: nat)
    ensures r >= 1
  {
    if i == 0 then 1 else 2 * Pow2(i - 1)
  }

  /** `retryWithBackoff(fn, maxRetries, baseDelay)` where `attempt(i)` is how the
      `i`-th call of `fn` settles; `waits` are the delays slept, in order. */
  method RetryWithBackoff<T, E>(attempt: nat -> Attempt<T, E>, maxRetries: int := 3, baseDelay: int := 1000)
    returns (outcome: RetryOutcome<T, E>, calls: nat, waits: seq<int>)
    ensures maxRetries <= 0 ==> outcome == Undefined && calls == 0
    ensures maxRetries > 0 ==> 1 <= calls <= maxRetries && outcome != Undefined
    ensures forall i :: 0 <= i < calls - 1 ==> attempt(i).Failed?
    ensures outcome.Returned? ==> attempt(calls - 1) == Succeeded(outcome.value)
    ensures outcome.Threw? ==> calls == maxRetries && attempt(calls - 1) == Failed(outcome.error)
    ensures |waits| == (if calls == 0 then 0 else calls - 1)
    ensures forall i :: 0 <= i < |waits| ==> waits[i] == baseDelay * Pow2(i)
  {
    outcome := Undefined;
    calls := 0;
    waits := [];
    var i := 0;
    while i < maxRetries
      invariant 0 <= i && calls == i && outcome == Undefined
      invariant maxRetries > 0 ==> i < maxRetries
      invariant maxRetries <= 0 ==> i == 0
      invariant forall j :: 0 <= j < i ==> attempt(j).Failed?
      invariant |waits| == i && forall j :: 0 <= j < i ==> waits[j] == baseDelay * Pow2(j)
      decreases maxRetries - i
    {
      calls := calls + 1;
      match attempt(i)
      case Succeeded(v) =>
        outcome := Returned(v);
        return;
      case Failed(e) =>
        if i == maxRetries - 1 {
          outcome := Threw(e);
          return;
        }
        waits := waits + [baseDelay * Pow2(i)];
      i := i + 1;
    }
  }

  // ---------------------------------------------------------------------------
  // getFileExtension, isVideoFormat, isAudioFormat (src/utils.js:174-194)

  /** The path with its trailing `/` characters removed. */
  function StripTrailingSlashes(p: string): (r: string)
    ensures |r| <= |p| && r == p[..|r|]
    ensures r == [] || r[|r| - 1] != '/'
    decreases |p|
  {
    if p != [] && p[|p| - 1] == '/' then StripTrailingSlashes(p[..|p| - 1]) else p
  }

  /** The text after the last `/`. */
  function AfterLastSlash(p: string): (r: string)
    ensures NotIn('/', r) && |r| <= |p| && r == p[|p| - |r|..]
    decreases |p|
  {
    if p == [] then []
    else if p[|p| - 1] == '/' then []
    else AfterLastSlash(p[..|p| - 1]) + [p[|p| - 1]]
  }

  /** The last component of a path. */
  function Basename(p: string): string
  {
    AfterLastSlash(StripTrailingSlashes(p))
  }

  /** The index of the last `.`. */
  function LastDot(s: string): (r: Option<nat>)
    ensures r.Some? ==> r.value < |s| && s[r.value] == '.' && NotIn('.', s[r.value + 1..])
    ensures r.None? ==> NotIn('.', s)
    decreases |s|
  {
    if s == [] then None
    else if s[|s| - 1] == '.' then Some(|s| - 1)
    else match LastDot(s[..|s| - 1])
      case None => None
      case Some(d) =>
        assert s[d + 1..] == s[..|s| - 1][d + 1..] + [s[|s| - 1]];
        Some(d)
  }

  /** Node's `path.extname`: from the last `.` of the last component, except when
      there is none, when the component starts with its only-or-last dot, or when
      the component is `..`. */
  function ExtName(p: string): (r: string)
    ensures r == [] || (r[0] == '.' && NotIn('.', r[1..]) && NotIn('/', r))
  {
    var b := Basename(p);
    match LastDot(b)
    case None => []
    case Some(d) =>
      if d == 0 || b == ".." then []
      else
        DotSuffix(b, d);
        b[d..]
  }

  lemma DotSuffix(b: string, d: nat)
    requires d < |b| && b[d] == '.' && NotIn('.', b[d + 1..]) && NotIn('/', b)
    ensures var r := b[d..]; r[0] == '.' && NotIn('.', r[1..]) && NotIn('/', r)
  {
    assert b[d..][1..] == b[d + 1..];
    forall k | 0 <= k < |b[d..]| ensures b[d..][k] != '/' {
      assert b[d..][k] == b[d + k];
    }
  }

  /** `getFileExtension`: the extension without its dot, lower-cased. */
  function GetFileExtension(filename: string): (r: string)
    ensures NotIn('.', r) && NotIn('/', r)
  {
    var e := ExtName(filename);
    if e == [] then [] else AsciiLower(e)[1..]
  }

  /** A last component `stem.ext` with a non-empty stem yields `ext`, lower-cased. */
  lemma ExtensionOfName(directory: string, stem: string, ext: string)
    requires |stem| > 0 && (stem != "." || ext != []) && NotIn('/', stem) && NotIn('/', ext) && NotIn('.', ext)
    ensures GetFileExtension(directory + "/" + stem + "." + ext) == AsciiLower(ext)
  {
    ExtNameOfName(directory, stem, ext);
    LowerAfterDot(ext);
  }

  lemma LowerAfterDot(ext: string)
    ensures AsciiLower("." + ext)[1..] == AsciiLower(ext)
  {
  }

  lemma ExtNameOfName(directory: string, stem: string, ext: string)
    requires |stem| > 0 && (stem != "." || ext != []) && NotIn('/', stem) && NotIn('/', ext) && NotIn('.', ext)
    ensures ExtName(directory + "/" + stem + "." + ext) == "." + ext
  {
    var name := stem + "." + ext;
    var p := directory + "/" + stem + "." + ext;
    assert p == directory + "/" + name;
    BasenameJoin(directory, name);
    LastDotOf(stem, ext);
    var b := Basename(p);
    assert b == name;
    assert LastDot(b) == Some(|stem|);
    assert b != ".." by {
      assert |b| == 2 ==> b[..1] == stem;
    }
    DropStem(stem, ext);
  }

  lemma DropStem(stem: string, ext: string)
    ensures (stem + "." + ext)[|stem|..] == "." + ext
  {
    assert stem + "." + ext == stem + ("." + ext);
  }

  /** The last component of `directory/name`, for a name without `/`. */
  lemma BasenameJoin(directory: string, name: string)
    requires |name| > 0 && NotIn('/', name)
    ensures Basename(directory + "/" + name) == name
  {
    var p := directory + "/" + name;
    assert p == (directory + "/") + name;
    assert StripTrailingSlashes(p) == p;
    BasenameOfName(directory + "/", name);
  }

  lemma {:induction false} BasenameOfName(front: string, name: string)
    requires front != [] && front[|front| - 1] == '/' && NotIn('/', name)
    ensures AfterLastSlash(front + name) == name
    decreases |name|
  {
    if name == [] {
      assert front + name == front;
    } else {
      var u := front + name;
      var init := name[..|name| - 1];
      assert u[|u| - 1] == name[|name| - 1] != '/';
      assert u[..|u| - 1] == front + init;
      BasenameOfName(front, init);
      assert AfterLastSlash(u) == AfterLastSlash(front + init) + [name[|name| - 1]];
      assert init + [name[|name| - 1]] == name;
    }
  }

  lemma {:induction false} LastDotOf(stem: string, ext: string)
    requires NotIn('.', ext)
    ensures LastDot(stem + "." + ext) == Some(|stem|)
    decreases |ext|
  {
    var s := stem + "." + ext;
    if ext == [] {
      assert s[|s| - 1] == '.';
    } else {
      assert s[..|s| - 1] == stem + "." + ext[..|ext| - 1];
      LastDotOf(stem, ext[..|ext| - 1]);
    }
  }

  /** A last component without a dot has no extension. */
  lemma NoDotNoExtension(directory: string, name: string)
    requires |name| > 0 && NotIn('/', name) && NotIn('.', name)
    ensures GetFileExtension(directory + "/" + name) == []
  {
    BasenameJoin(directory, name);
  }

  /** A dot file has no extension. */
  lemma DotFileNoExtension(directory: string, rest: string)
    requires NotIn('/', rest) && NotIn('.', rest)
    ensures GetFileExtension(directory + "/." + rest) == []
  {
    var name := "." + rest;
    assert directory + "/." + rest == directory + "/" + name;
    BasenameJoin(directory, name);
    LastDotOf([], rest);
    assert [] + "." + rest == name;
  }

  const VideoExtensions: seq<string> := ["mp4", "avi", "mkv", "mov", "wmv", "flv", "webm", "3gp"]
  const AudioExtensions: seq<string> := ["mp3", "wav", "flac", "aac", "ogg", "wma", "m4a"]

  predicate IsVideoFormat(filename: string) { GetFileExtension(filename) in VideoExtensions }
  predicate IsAudioFormat(filename: string) { GetFileExtension(filename) in AudioExtensions }

  /** Every video extension has a third letter and a second letter that no audio
      extension has in that combination. */
  lemma VideoSignature(i: nat)
    requires i < |VideoExtensions|
    ensures var e := VideoExtensions[i];
      |e| >= 3 && (e[2] in {'4', 'i', 'b', 'p'} || (e[2] == 'v' && e[1] != 'a'))
  {
  }

  lemma AudioSignature(j: nat)
    requires j < |AudioExtensions|
    ensures var e := AudioExtensions[j];
      |e| >= 3 && (e[2] in {'3', 'a', 'c', 'g'} || (e[2] == 'v' && e[1] == 'a'))
  {
  }

  /** The two lists share no extension, so no file is both a video and an audio file. */
  lemma VideoAndAudioDisjoint(filename: string)
    ensures !(IsVideoFormat(filename) && IsAudioFormat(filename))
  {
    var e := GetFileExtension(filename);
    if e in VideoExtensions && e in AudioExtensions {
      var i :| 0 <= i < |VideoExtensions| && VideoExtensions[i] == e;
      var j :| 0 <= j < |AudioExtensions| && AudioExtensions[j] == e;
      VideoSignature(i);
      AudioSignature(j);
      assert false;
    }
  }

  // ---------------------------------------------------------------------------
  // createProgressBar (src/utils.js:199-203)

  /** `Math.floor((progress / 100) * width)` on integers. */
  function Filled(progress: int, width: int): int
  {
    (progress * width) / 100
  }

  /** The cell literals as they stand in the file: each is the UTF-8 encoding
      of a block glyph (U+2588 full, U+2591 light shade) read back as
      Windows-1252, so each is three characters long. */
  const FullCell: string := "\U{E2}\U{2013}\U{2C6}"
  const EmptyCell: string := "\U{E2}\U{2013}\U{2018}"

  /** The `i`-th three-character cell of `s`. */
  function CellAt(s: string, i: nat): string
    requires 3 * i + 3 <= |s|
  {
    s[3 * i..3 * i + 3]
  }

  /** `cell.repeat(n)` for a three-character cell. */
  function Tile(cell: string, n: nat): (r: string)
    requires |cell| == 3
    ensures |r| == 3 * n
    ensures forall i :: 0 <= i < n ==> CellAt(r, i) == cell
  {
    if n == 0 then []
    else
      var rest := Tile(cell, n - 1);
      assert forall i :: 1 <= i < n ==> CellAt(cell + rest, i) == CellAt(rest, i - 1) by {
        forall i | 1 <= i < n ensures CellAt(cell + rest, i) == CellAt(rest, i - 1) {
          assert (cell + rest)[3 * i..3 * i + 3] == rest[3 * (i - 1)..3 * (i - 1) + 3];
        }
      }
      assert CellAt(cell + rest, 0) == cell;
      cell + rest
  }

  /** `None` stands for the `RangeError` that `repeat` throws for a negative count. */
  function CreateProgressBar(progress: int, width: int := 20): (r: Option<string>)
    ensures r.Some? <==> 0 <= Filled(progress, width) <= width
    ensures r.Some? ==> |r.value| == 3 * width
    ensures r.Some? ==> forall i :: 0 <= i < width ==>
      CellAt(r.value, i) == if i < Filled(progress, width) then FullCell else EmptyCell
  {
    var filled := Filled(progress, width);
    if filled < 0 || width - filled < 0 then None
    else
      var full := Tile(FullCell, filled);
      var empty := Tile(EmptyCell, width - filled);
      assert forall i :: 0 <= i < width ==>
        CellAt(full + empty, i) == if i < filled then FullCell else EmptyCell by {
        forall i | 0 <= i < width
          ensures CellAt(full + empty, i) == if i < filled then FullCell else EmptyCell
        {
          if i < filled {
            assert (full + empty)[3 * i..3 * i + 3] == full[3 * i..3 * i + 3];
            assert CellAt(full, i) == FullCell;
          } else {
            assert (full + empty)[3 * i..3 * i + 3] == empty[3 * (i - filled)..3 * (i - filled) + 3];
            assert CellAt(empty, i - filled) == EmptyCell;
          }
        }
      }
      Some(full + empty)
  }

  /** In range, the bar always has its full width of cells. */
  lemma ProgressBarInRange(progress: int, width: int)
    requires 0 <= progress <= 100 && width >= 0
    ensures CreateProgressBar(progress, width).Some?
    ensures |CreateProgressBar(progress, width).value| == 3 * width
  {
    assert 0 <= progress * width <= 100 * width;
  }

  /** More progress never fills fewer cells. */
  lemma ProgressBarMonotone(p: int, q: int, width: nat)
    requires p <= q
    ensures Filled(p, width) <= Filled(q, width)
  {
    assert p * width <= q * width;
  }

  // ---------------------------------------------------------------------------
  // parseQuality (src/utils.js:216-219)

  /** `/(\d+)p/` tried at every start from `i`: the first run of digits that is
      followed by `p`. */
  function QualityFrom(s: string, i: nat): (r: int)
    requires i <= |s|
    ensures r >= 0
    decreases |s| - i
  {
    if i == |s| then 0
    else
      var d := DigitPrefix(s[i..]);
      if |d| > 0 && i + |d| < |s| && s[i + |d|] == 'p' then DecimalValue(d)
      else QualityFrom(s, i + 1)
  }

  /** `parseQuality`: the number before the first `p` that follows digits, or 0. */
  function ParseQuality(qualityString: string): (r: int)
    ensures r >= 0
  {
    QualityFrom(qualityString, 0)
  }

  /** `720p`, `1080p60` and the like give their number. */
  lemma ParseQualityLabel(n: nat, rest: string)
    ensures ParseQuality(NatToString(n) + "p" + rest) == n
  {
    var d := NatToString(n);
    var s := d + "p" + rest;
    assert s[0..] == s;
    DigitPrefixStops(d, "p" + rest);
    assert s == d + ("p" + rest);
    DecimalOfNatToString(n);
  }

  lemma {:induction false} DigitPrefixStops(d: string, rest: string)
    requires AllDigits(d) && (rest == [] || !IsDigit(rest[0]))
    ensures DigitPrefix(d + rest) == d
    decreases |d|
  {
    if d == [] {
      assert d + rest == rest;
    } else {
      assert (d + rest)[1..] == d[1..] + rest;
      DigitPrefixStops(d[1..], rest);
      assert [d[0]] + d[1..] == d;
    }
  }

  /** A string without `p` has no quality. */
  lemma {:induction false} NoQualityWithoutP(s: string, i: nat)
    requires i <= |s| && NotIn('p', s)
    ensures QualityFrom(s, i) == 0
    decreases |s| - i
  {
    if i < |s| {
      NoQualityWithoutP(s, i + 1);
    }
  }
}
