/** The configuration store (src/config.js): a tree of JavaScript values read
    with a dotted key by `getNestedValue` and written by `setNestedValue`, the
    `maxFileSize` default rule and `validate`. */
module Config {
  import opened Text
  import Utils

  /** The JavaScript values the configuration holds. An array is an object
      keyed by its indices. */
  datatype Value =
    | Undefined
    | Null
    | Bool(b: bool)
    | Num(n: int)
    | Str(s: string)
    | Obj(fields: map<string, Value>)

  /** JavaScript truthiness: `undefined`, `null`, `false`, `0` and `''` are falsy. */
  predicate Truthy(v: Value) {
    match v
    case Undefined => false
    case Null => false
    case Bool(b) => b
    case Num(n) => n != 0
    case Str(s) => s != []
    case Obj(_) => true
  }

  /** `o[k]`: an own property of an object; nothing else has properties here. */
  function Lookup(o: Value, k: string): Value
  {
    if o.Obj? && k in o.fields then o.fields[k] else Undefined
  }

  // ---------------------------------------------------------------------------
  // getNestedValue (src/config.js:45-47, 53-55)

  /** One step of the `reduce`: `(o && o[k] !== undefined) ? o[k] : undefined`. */
  function Step(o: Value, k: string): Value
  {
    if Truthy(o) then Lookup(o, k) else Undefined
  }

  /** `getNestedValue` over the pieces of the key. */
  function GetPath(v: Value, keys: seq<string>): Value
    decreases |keys|
  {
    if keys == [] then v else GetPath(Step(v, keys[0]), keys[1..])
  }

  /** Once the walk reaches a falsy value, the result is `undefined`. */
  lemma {:induction false} GetThroughFalsy(v: Value, keys: seq<string>)
    requires !Truthy(v) && keys != []
    ensures GetPath(v, keys) == Undefined
    decreases |keys|
  {
    if |keys| > 1 {
      GetThroughFalsy(Undefined, keys[1..]);
    }
  }

  /** A missing segment makes the whole lookup `undefined`, whatever follows. */
  lemma GetMissingSegment(v: Value, k: string, rest: seq<string>)
    requires v.Obj? && k !in v.fields
    ensures GetPath(v, [k] + rest) == Undefined
  {
    assert ([k] + rest)[1..] == rest;
    if rest != [] {
      GetThroughFalsy(Undefined, rest);
    }
  }

  // ---------------------------------------------------------------------------
  // setNestedValue (src/config.js:49-51, 57-62)

  /** `setNestedValue` on a copy of the tree: every segment but the last is
      walked with `o[k] = o[k] || {}`, so a falsy or missing intermediate is
      replaced by a fresh object, and the last segment is assigned. Assigning a
      property of anything but an object throws a `TypeError` in strict-mode
      class code; `None` is that error, and it can only happen before any
      property changed. */
  function SetIn(o: Value, keys: seq<string>, x: Value): (r: Option<Value>)
    requires |keys| >= 1
    ensures !o.Obj? ==> r.None?
    ensures r.Some? ==> r.value.Obj?
    decreases |keys|
  {
    if !o.Obj? then None
    else if |keys| == 1 then Some(Obj(o.fields[keys[0] := x]))
    else
      var child := Lookup(o, keys[0]);
      var next := if Truthy(child) then child else Obj(map[]);
      match SetIn(next, keys[1..], x)
      case None => None
      case Some(c) => Some(Obj(o.fields[keys[0] := c]))
  }

  /** Set then get: the stored value comes back, falsy values included. */
  lemma {:induction false} SetThenGet(v: Value, keys: seq<string>, x: Value)
    requires |keys| >= 1 && SetIn(v, keys, x).Some?
    ensures GetPath(SetIn(v, keys, x).value, keys) == x
    decreases |keys|
  {
    if |keys| > 1 {
      var child := Lookup(v, keys[0]);
      var next := if Truthy(child) then child else Obj(map[]);
      SetThenGet(next, keys[1..], x);
    }
  }

  /** A path that leaves the written path at segment `i` reads the same before
      and after the write. */
  lemma {:induction false} SetKeepsOthers(v: Value, keys: seq<string>, x: Value, p: seq<string>, i: nat)
    requires |keys| >= 1 && SetIn(v, keys, x).Some?
    requires i < |keys| && i < |p| && p[..i] == keys[..i] && p[i] != keys[i]
    ensures GetPath(SetIn(v, keys, x).value, p) == GetPath(v, p)
    decreases i
  {
    var w := SetIn(v, keys, x).value;
    if i > 0 {
      assert p[0] == keys[0] by {
        assert p[..i][0] == keys[..i][0];
      }
      var child := Lookup(v, keys[0]);
      var next := if Truthy(child) then child else Obj(map[]);
      assert p[1..][..i - 1] == keys[1..][..i - 1] by {
        assert p[1..][..i - 1] == p[..i][1..];
        assert keys[1..][..i - 1] == keys[..i][1..];
      }
      SetKeepsOthers(next, keys[1..], x, p[1..], i - 1);
      if !Truthy(child) {
        GetThroughFalsy(child, p[1..]);
        FreshObjectMisses(keys[1..], x, p[1..], i - 1);
      }
    }
  }

  /** Below a fresh intermediate, a diverging path finds nothing. */
  lemma {:induction false} FreshObjectMisses(keys: seq<string>, x: Value, p: seq<string>, i: nat)
    requires |keys| >= 1 && SetIn(Obj(map[]), keys, x).Some?
    requires i < |keys| && i < |p| && p[..i] == keys[..i] && p[i] != keys[i]
    ensures GetPath(SetIn(Obj(map[]), keys, x).value, p) == Undefined
    decreases i
  {
    var w := SetIn(Obj(map[]), keys, x).value;
    if i == 0 {
      assert Step(w, p[0]) == Undefined;
      if |p| > 1 {
        GetThroughFalsy(Undefined, p[1..]);
      }
    } else {
      assert p[0] == keys[0] by {
        assert p[..i][0] == keys[..i][0];
      }
      assert p[1..][..i - 1] == keys[1..][..i - 1] by {
        assert p[1..][..i - 1] == p[..i][1..];
        assert keys[1..][..i - 1] == keys[..i][1..];
      }
      FreshObjectMisses(keys[1..], x, p[1..], i - 1);
    }
  }

  /** A value the walk must pass through that is truthy but not an object. */
  predicate Blocks(v: Value) {
    Truthy(v) && !v.Obj?
  }

  /** The write throws exactly when a proper prefix of the key reads a truthy
      non-object: the walk would have to assign a property of it. */
  lemma {:induction false} SetFailsIff(v: Value, keys: seq<string>, x: Value)
    requires v.Obj? && |keys| >= 1
    ensures SetIn(v, keys, x).None? <==> exists j :: 0 <= j < |keys| && Blocks(GetPath(v, keys[..j]))
    decreases |keys|
  {
    assert GetPath(v, keys[..0]) == v;
    if |keys| > 1 {
      var child := Lookup(v, keys[0]);
      var rest := keys[1..];
      forall j | 1 <= j < |keys| ensures GetPath(v, keys[..j]) == GetPath(child, rest[..j - 1]) {
        assert keys[..j][1..] == rest[..j - 1];
        assert keys[..j][0] == keys[0];
      }
      if Truthy(child) && child.Obj? {
        SetFailsIff(child, rest, x);
        if exists j :: 0 <= j < |rest| && Blocks(GetPath(child, rest[..j])) {
          var j :| 0 <= j < |rest| && Blocks(GetPath(child, rest[..j]));
          assert Blocks(GetPath(v, keys[..j + 1]));
        }
      } else if Truthy(child) {
        assert GetPath(v, keys[..1]) == child;
        assert Blocks(GetPath(v, keys[..1]));
      } else {
        NeverBlocksFresh(rest, x);
        forall j | 1 <= j < |keys| ensures !Blocks(GetPath(v, keys[..j])) {
          if j > 1 {
            GetThroughFalsy(child, rest[..j - 1]);
          }
        }
      }
    }
  }

  /** Writing into a fresh object never throws. */
  lemma {:induction false} NeverBlocksFresh(keys: seq<string>, x: Value)
    requires |keys| >= 1
    ensures SetIn(Obj(map[]), keys, x).Some?
    decreases |keys|
  {
    if |keys| > 1 {
      NeverBlocksFresh(keys[1..], x);
    }
  }

  /** A falsy intermediate (0, '', null, false, a missing key) is replaced by a
      fresh object holding only the written key. */
  lemma SetReplacesFalsy(v: Value, k: string, j: string, x: Value)
    requires v.Obj? && !Truthy(Lookup(v, k))
    ensures SetIn(v, [k, j], x) == Some(Obj(v.fields[k := Obj(map[j := x])]))
  {
    assert [k, j][1..] == [j];
  }

  // ---------------------------------------------------------------------------
  // maxFileSize (src/config.js:14; the same rule at src/bot.js:16)

  const MiB: nat := 1048576
  /** `50 * 1024 * 1024`. */
  const DefaultMaxFileSize: nat := 52428800

  /** `parseInt(MAX_FILE_SIZE_MB) * 1024 * 1024 || 50 * 1024 * 1024`: `NaN` and 0
      both fall back to 50 MiB. */
  function MaxFileSize(mb: Option<string>): (r: int)
    ensures r != 0 && r % MiB == 0
    ensures r < 0 <==> mb.Some? && ParseInt(mb.value).Some? && ParseInt(mb.value).value < 0
  {
    var parsed := if mb.None? then None else ParseInt(mb.value);
    if parsed.None? || parsed.value * MiB == 0 then DefaultMaxFileSize else parsed.value * MiB
  }

  /** A whole, non-zero number of mebibytes is taken as given. */
  lemma MaxFileSizeOf(mb: int)
    requires mb != 0
    ensures MaxFileSize(Some(IntToString(mb))) == mb * MiB
  {
    ParseIntOfIntToString(mb);
  }

  /** Unset, zero and unparsable values all give 50 MiB. */
  lemma MaxFileSizeFallback(mb: Option<string>)
    requires mb.None? || ParseInt(mb.value).None? || ParseInt(mb.value) == Some(0)
    ensures MaxFileSize(mb) == DefaultMaxFileSize
  {
  }

  // ---------------------------------------------------------------------------
  // loadConfig (src/config.js:9-43)

  /** The environment variables the defaults read; `None` is an unset variable. */
  datatype Env = Env(
    botToken: Option<string>,
    maxFileSizeMb: Option<string>,
    downloadDir: Option<string>,
    debug: Option<string>)

  function EnvValue(x: Option<string>): Value
  {
    if x.Some? then Str(x.value) else Undefined
  }

  /** The tree `loadConfig` builds. */
  function Defaults(env: Env): Value
  {
    Obj(map[
      "telegram" := Obj(map[
        "botToken" := EnvValue(env.botToken),
        "maxFileSize" := Num(MaxFileSize(env.maxFileSizeMb)),
        "polling" := Bool(true)]),
      "download" := Obj(map[
        "directory" := Str(if env.downloadDir.Some? && env.downloadDir.value != [] then env.downloadDir.value else "./downloads"),
        "cleanupInterval" := Num(1),
        "maxFileAge" := Num(24),
        "maxConcurrentDownloads" := Num(3)]),
      "video" := Obj(map[
        "defaultQuality" := Str("highest"),
        "formats" := Obj(map["0" := Str("mp4"), "1" := Str("webm"), "2" := Str("avi")]),
        "maxDuration" := Num(3600)]),
      "audio" := Obj(map[
        "defaultBitrate" := Num(320),
        "formats" := Obj(map["0" := Str("mp3"), "1" := Str("wav"), "2" := Str("flac"), "3" := Str("aac")]),
        "defaultFormat" := Str("mp3")]),
      "ffmpeg" := Obj(map[
        "timeout" := Num(300000),
        "preset" := Str("medium")]),
      "logging" := Obj(map[
        "level" := Str(if env.debug == Some("true") then "debug" else "info"),
        "logToFile" := Bool(false),
        "logFile" := Str("./logs/bot.log")])])
  }

  // ---------------------------------------------------------------------------
  // validate (src/config.js:64-83)

  const TokenRequired: string := "Telegram bot token is required"
  const SizeNotPositive: string := "Max file size must be greater than 0"
  const DirectoryRequired: string := "Download directory is required"

  /** `v.k` in an expression: reading a property of `undefined` or `null` throws. */
  function Prop(v: Value, k: string): Option<Value>
  {
    if v.Undefined? || v.Null? then None else Some(Lookup(v, k))
  }

  /** `Number(v)`, `None` for `NaN`. A string counts when, once trimmed, it is
      empty or an optionally signed run of decimal digits. */
  function ToNumber(v: Value): Option<int>
  {
    match v
    case Undefined => None
    case Null => Some(0)
    case Bool(b) => Some(if b then 1 else 0)
    case Num(n) => Some(n)
    case Str(s) =>
      var t := Utils.Trim(s);
      var sign := if t != [] && t[0] == '-' then -1 else 1;
      var digits := if t != [] && (t[0] == '-' || t[0] == '+') then t[1..] else t;
      if t == [] then Some(0)
      else if digits != [] && AllDigits(digits) then Some(sign * DecimalValue(digits))
      else None
    case Obj(_) => None
  }

  /** `v <= 0`: false whenever `v` converts to `NaN`. */
  predicate AtMostZero(v: Value) {
    ToNumber(v).Some? && ToNumber(v).value <= 0
  }

  function Rank(message: string): nat
  {
    if message == TokenRequired then 0 else if message == SizeNotPositive then 1 else 2
  }

  /** The errors `validate` collects, `None` when one of its property reads
      throws. */
  function ValidationErrors(config: Value): (r: Option<seq<string>>)
    ensures r.Some? ==> forall i, j :: 0 <= i < j < |r.value| ==> Rank(r.value[i]) < Rank(r.value[j])
    ensures r.Some? ==> forall i :: 0 <= i < |r.value| ==> r.value[i] in {TokenRequired, SizeNotPositive, DirectoryRequired}
  {
    var telegram := Prop(config, "telegram");
    if telegram.None? then None
    else
      var token := Prop(telegram.value, "botToken");
      var size := Prop(telegram.value, "maxFileSize");
      var download := Prop(config, "download");
      if token.None? || size.None? || download.None? then None
      else
        var directory := Prop(download.value, "directory");
        if directory.None? then None
        else
          Some((if Truthy(token.value) then [] else [TokenRequired]) +
               (if AtMostZero(size.value) then [SizeNotPositive] else []) +
               (if Truthy(directory.value) then [] else [DirectoryRequired]))
  }

  datatype Validation = Validation(valid: bool, errors: seq<string>)

  /** With the tree `loadConfig` builds, `validate` never throws and never
      misses the directory; the token error fires exactly when the token is unset
      or empty, and the size error exactly when the configured number of
      mebibytes is negative. */
  lemma DefaultsValidation(env: Env)
    ensures ValidationErrors(Defaults(env)).Some?
    ensures var errors := ValidationErrors(Defaults(env)).value;
      (TokenRequired in errors <==> env.botToken.None? || env.botToken == Some([])) &&
      (SizeNotPositive in errors <==>
        env.maxFileSizeMb.Some? && ParseInt(env.maxFileSizeMb.value).Some? && ParseInt(env.maxFileSizeMb.value).value < 0) &&
      DirectoryRequired !in errors
  {
    var d := Defaults(env);
    var telegram := Lookup(d, "telegram");
    assert Prop(d, "telegram") == Some(telegram);
    assert Lookup(telegram, "maxFileSize") == Num(MaxFileSize(env.maxFileSizeMb));
    assert Truthy(Lookup(Lookup(d, "download"), "directory"));
  }

  // ---------------------------------------------------------------------------

  /** The `Config` singleton: its `config` field is the tree. */
  class ConfigStore {
    var config: Value

    /** `new Config()`: `loadConfig` with the given environment. */
    constructor(env: Env)
      ensures config == Defaults(env)
    {
      config := Defaults(env);
    }

    /** `get(key)`. */
    function Get(key: string): Value
      reads this
    {
      GetPath(config, Split(key, '.'))
    }

    /** `set(key, value)`; `false` is the `TypeError` thrown when a prefix of the
        key holds a truthy non-object, and the tree is then unchanged. */
    method Set(key: string, value: Value) returns (ok: bool)
      modifies this
      ensures ok <==> SetIn(old(config), Split(key, '.'), value).Some?
      ensures ok ==> config == SetIn(old(config), Split(key, '.'), value).value
      ensures !ok ==> config == old(config)
      ensures ok ==> Get(key) == value
    {
      var r := SetIn(config, Split(key, '.'), value);
      if r.Some? {
        SetThenGet(config, Split(key, '.'), value);
        config := r.value;
        ok := true;
      } else {
        ok := false;
      }
    }

    /** `validate()`: the checks in their order, each pushing its message;
        `None` is a property read that throws. */
    method Validate() returns (result: Option<Validation>)
      ensures result.None? <==> ValidationErrors(config).None?
      ensures result.Some? ==> result.value.errors == ValidationErrors(config).value
      ensures result.Some? ==> (result.value.valid <==> result.value.errors == [])
    {
      var telegram := Prop(config, "telegram");
      if telegram.None? {
        return None;
      }
      var errors: seq<string> := [];
      var token := Prop(telegram.value, "botToken");
      if token.None? {
        return None;
      }
      if !Truthy(token.value) {
        errors := errors + [TokenRequired];
      }
      var size := Prop(telegram.value, "maxFileSize");
      if size.None? {
        return None;
      }
      if AtMostZero(size.value) {
        errors := errors + [SizeNotPositive];
      }
      var download := Prop(config, "download");
      if download.None? {
        return None;
      }
      var directory := Prop(download.value, "directory");
      if directory.None? {
        return None;
      }
      if !Truthy(directory.value) {
        errors := errors + [DirectoryRequired];
      }
      result := Some(Validation(|errors| == 0, errors));
    }
  }
}
