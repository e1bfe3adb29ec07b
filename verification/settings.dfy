/**
 * The options page (`TweetExportSettings` in settings.js): the default
 * settings, the spread merge that loads stored settings over them, the
 * camelCase key to kebab-case element id conversion, the validator, the live
 * checks on the two numeric inputs, and the save and reset commands.
 */
module Settings {
  import opened Wrappers
  import opened Js
  import opened Seqs
  import opened TweetMap

  /** The values a settings object holds: booleans, strings and (integral) numbers. */
  datatype Value = Bool(b: bool) | Str(s: string) | Num(n: int)

  /** A settings object: its own keys in insertion order, as `Object.keys` lists them. */
  type SettingsObject = OrderedMap<Value>

  // ---------------------------------------------------------------------------
  // Defaults

  const DEFAULT_KEYS: seq<string> := [
    "includeMedia", "includeReplies", "includeRetweets", "includeMetrics", "exportFormat",
    "filenamePattern", "showExportButtons", "enableBulkSelection", "buttonPosition", "maxTweets",
    "apiDelay", "enableDebugMode"]

  const DEFAULT_PATTERN: string := "tweets_{username}_{date}"

  /** `this.defaultSettings` */
  function Defaults(): (d: SettingsObject)
    ensures d.keys == DEFAULT_KEYS
  {
    OrderedMap(DEFAULT_KEYS, map[
      "includeMedia" := Bool(true),
      "includeReplies" := Bool(true),
      "includeRetweets" := Bool(false),
      "includeMetrics" := Bool(true),
      "exportFormat" := Str("json"),
      "filenamePattern" := Str(DEFAULT_PATTERN),
      "showExportButtons" := Bool(true),
      "enableBulkSelection" := Bool(true),
      "buttonPosition" := Str("top-right"),
      "maxTweets" := Num(1000),
      "apiDelay" := Num(1000),
      "enableDebugMode" := Bool(false)])
  }

  lemma DefaultsValid()
    ensures Valid(Defaults())
  {
    var k := DEFAULT_KEYS;
    forall i, j | 0 <= i < j < |k|
      ensures k[i] != k[j]
    {
      assert |k[i]| != |k[j]| || k[i][0] != k[j][0] || k[i][7] != k[j][7];
    }
  }

  // ---------------------------------------------------------------------------
  // Validation

  /** The number a relational operator sees: `undefined` is NaN, a boolean 0 or 1, a string its
      `Number(...)` conversion. */
  function NumberOf(v: Option<Value>): (r: JsNumber)
    ensures v.None? ==> r.NaN?
    ensures v.Some? && v.value.Bool? ==> r.Finite? && 0 <= r.value <= 1
    ensures v.Some? && v.value.Str? && v.value.s != [] && AllDigits(v.value.s) ==> r == Finite(DigitsValue(v.value.s))
    ensures v.Some? && v.value.Str? && Trim(v.value.s) == [] ==> r == Finite(0)
  {
    match v
    case None => NaN
    case Some(Bool(b)) => Finite(if b then 1 else 0)
    case Some(Str(s)) =>
      if s != [] && AllDigits(s) then StringToNumberOfDigits(s); StringToNumber(s) else StringToNumber(s)
    case Some(Num(n)) => Finite(n)
  }

  /** `x < lo || x > hi`, which is false for NaN. */
  predicate OutOfRange(x: JsNumber, lo: int, hi: int)
  {
    Less(x, Finite(lo)) || Less(Finite(hi), x)
  }

  const MAX_TWEETS_MIN: int := 1
  const MAX_TWEETS_MAX: int := 10000
  const API_DELAY_MIN: int := 100
  const API_DELAY_MAX: int := 5000

  const MAX_TWEETS_ALERT: string := "Maximum tweets must be between 1 and 10000"
  const API_DELAY_ALERT: string := "API delay must be between 100 and 5000 milliseconds"
  const PATTERN_ALERT: string := "Filename pattern must include {date} placeholder"

  /** `validateSettings`: `Rejected` is an alert followed by `false`; `Thrown` is the TypeError of
      calling `includes` on a `filenamePattern` that is missing or not a string. */
  datatype Validation = Accepted | Rejected(alert: string) | Thrown

  function Validate(s: SettingsObject): (r: Validation)
    ensures r.Rejected? ==> r.alert in {MAX_TWEETS_ALERT, API_DELAY_ALERT, PATTERN_ALERT}
  {
    if OutOfRange(NumberOf(Get(s, "maxTweets")), MAX_TWEETS_MIN, MAX_TWEETS_MAX) then Rejected(MAX_TWEETS_ALERT)
    else if OutOfRange(NumberOf(Get(s, "apiDelay")), API_DELAY_MIN, API_DELAY_MAX) then Rejected(API_DELAY_ALERT)
    else
      var pattern := Get(s, "filenamePattern");
      if pattern.None? || !pattern.value.Str? then Thrown
      else if Includes(pattern.value.s, "{date}") then Accepted
      else Rejected(PATTERN_ALERT)
  }

  /** The checks run in order and only the first failure is reported; a settings object is
      accepted exactly when each number is in range or not a number at all (every comparison
      with NaN is false) and the pattern is a string holding "{date}". */
  lemma ValidateOrder(s: SettingsObject)
    ensures var mt, ad := NumberOf(Get(s, "maxTweets")), NumberOf(Get(s, "apiDelay"));
      && (Validate(s) == Rejected(MAX_TWEETS_ALERT) <==> mt.Finite? && !(MAX_TWEETS_MIN <= mt.value <= MAX_TWEETS_MAX))
      && (Validate(s) == Rejected(API_DELAY_ALERT) <==>
            !(mt.Finite? && !(MAX_TWEETS_MIN <= mt.value <= MAX_TWEETS_MAX))
            && ad.Finite? && !(API_DELAY_MIN <= ad.value <= API_DELAY_MAX))
      && (Validate(s) == Accepted <==>
            (mt.NaN? || MAX_TWEETS_MIN <= mt.value <= MAX_TWEETS_MAX)
            && (ad.NaN? || API_DELAY_MIN <= ad.value <= API_DELAY_MAX)
            && Get(s, "filenamePattern").Some? && Get(s, "filenamePattern").value.Str?
            && Includes(Get(s, "filenamePattern").value.s, "{date}"))
  {
  }

  /** The defaults pass validation. */
  lemma DefaultsAccepted()
    ensures Validate(Defaults()) == Accepted
  {
    assert OccursAt(DEFAULT_PATTERN, "{date}", 18) by {
      assert DEFAULT_PATTERN[18..24] == "{date}";
    }
  }

  /** A missing or non-numeric count is not caught by the range checks. */
  lemma NonNumericCountsPass(s: SettingsObject)
    requires NumberOf(Get(s, "maxTweets")).NaN? && NumberOf(Get(s, "apiDelay")).NaN?
    ensures Validate(s) != Rejected(MAX_TWEETS_ALERT) && Validate(s) != Rejected(API_DELAY_ALERT)
  {
  }

  // ---------------------------------------------------------------------------
  // Live checks on the numeric inputs

  const MAX_TWEETS_HINT: string := "Please enter a value between 1 and 10000"
  const API_DELAY_HINT: string := "Please enter a value between 100 and 5000"

  /** The `input` listener: `parseInt` of the field, then the custom validity message, "" when the
      value is acceptable. */
  function LiveCheck(value: string, lo: int, hi: int, hint: string): (msg: string)
    ensures msg == "" || msg == hint
  {
    if OutOfRange(ParseInt(value), lo, hi) then hint else ""
  }

  /** On a field holding a plain decimal number, a live check flags the value exactly when the
      save-time range check with the same bounds does. */
  lemma LiveCheckAgrees(digits: string, lo: int, hi: int, hint: string)
    requires digits != [] && AllDigits(digits) && hint != ""
    ensures LiveCheck(digits, lo, hi, hint) != "" <==> OutOfRange(NumberOf(Some(Str(digits))), lo, hi)
  {
    ParseIntOfDigits(digits);
    StringToNumberOfDigits(digits);
  }

  /** Both numeric fields use the same bounds live and at save time. */
  lemma LiveChecksAgreeWithValidate(digits: string)
    requires digits != [] && AllDigits(digits)
    ensures LiveCheck(digits, MAX_TWEETS_MIN, MAX_TWEETS_MAX, MAX_TWEETS_HINT) != ""
      <==> OutOfRange(NumberOf(Some(Str(digits))), MAX_TWEETS_MIN, MAX_TWEETS_MAX)
    ensures LiveCheck(digits, API_DELAY_MIN, API_DELAY_MAX, API_DELAY_HINT) != ""
      <==> OutOfRange(NumberOf(Some(Str(digits))), API_DELAY_MIN, API_DELAY_MAX)
  {
    LiveCheckAgrees(digits, MAX_TWEETS_MIN, MAX_TWEETS_MAX, MAX_TWEETS_HINT);
    LiveCheckAgrees(digits, API_DELAY_MIN, API_DELAY_MAX, API_DELAY_HINT);
  }

  // ---------------------------------------------------------------------------
  // Key to element id

  function CountUpper(s: string): nat
  {
    if s == [] then 0 else (if IsAsciiUpper(s[0]) then 1 else 0) + CountUpper(s[1..])
  }

  /** `key.replace(/([A-Z])/g, '-$1').toLowerCase()`, on ASCII letters. */
  function KebabId(key: string): (r: string)
    ensures |key| <= |r| <= 2 * |key|
    ensures key != [] ==> r[0] == if IsAsciiUpper(key[0]) then '-' else key[0]
  {
    if key == [] then []
    else
      var head := if IsAsciiUpper(key[0]) then ['-', ToAsciiLower(key[0])] else [ToAsciiLower(key[0])];
      head + KebabId(key[1..])
  }

  /** Each capital gains a '-' in front of it, and no capital is left. */
  lemma {:induction false} KebabIdShape(key: string)
    ensures |KebabId(key)| == |key| + CountUpper(key)
    ensures forall i :: 0 <= i < |KebabId(key)| ==> !IsAsciiUpper(KebabId(key)[i])
  {
    if key != [] {
      KebabIdShape(key[1..]);
      var head := if IsAsciiUpper(key[0]) then ['-', ToAsciiLower(key[0])] else [ToAsciiLower(key[0])];
      var r := KebabId(key);
      assert r == head + KebabId(key[1..]);
      forall i | 0 <= i < |r|
        ensures !IsAsciiUpper(r[i])
      {
        if i >= |head| {
          assert r[i] == KebabId(key[1..])[i - |head|];
        }
      }
    }
  }

  /** The reading back: a '-' and the letter after it become that letter in upper case. */
  function CamelKey(id: string): (r: string)
  {
    if id == [] then []
    else if id[0] == '-' && |id| >= 2 then [ToAsciiUpper(id[1])] + CamelKey(id[2..])
    else [id[0]] + CamelKey(id[1..])
  }

  /** A key with no '-' of its own is recovered from its element id: the conversion loses nothing. */
  lemma {:induction false} KebabRoundTrip(key: string)
    requires '-' !in key
    ensures CamelKey(KebabId(key)) == key
  {
    if key != [] {
      var rest := KebabId(key[1..]);
      KebabRoundTrip(key[1..]);
      assert CamelKey(KebabId(key)) == [key[0]] + CamelKey(rest) by {
        if IsAsciiUpper(key[0]) {
          var id := ['-', ToAsciiLower(key[0])] + rest;
          assert KebabId(key) == id;
          assert id[2..] == rest;
          assert ToAsciiUpper(id[1]) == key[0];
        } else {
          var id := [key[0]] + rest;
          assert KebabId(key) == id;
          assert id[1..] == rest;
        }
      }
      assert key == [key[0]] + key[1..];
    }
  }

  lemma {:induction false} KebabIdAppend(a: string, b: string)
    ensures KebabId(a + b) == KebabId(a) + KebabId(b)
  {
    if a == [] {
      assert a + b == b;
    } else {
      var head := if IsAsciiUpper(a[0]) then ['-', ToAsciiLower(a[0])] else [ToAsciiLower(a[0])];
      assert (a + b)[0] == a[0] && (a + b)[1..] == a[1..] + b;
      assert KebabId(a + b) == head + KebabId(a[1..] + b);
      KebabIdAppend(a[1..], b);
    }
  }

  /** A key without capitals is its own element id. */
  lemma {:induction false} KebabIdOfLower(key: string)
    requires AllLower(key)
    ensures KebabId(key) == key
  {
    if key != [] {
      KebabIdOfLower(key[1..]);
    }
  }

  predicate AllLower(s: string)
  {
    forall i :: 0 <= i < |s| ==> 'a' <= s[i] <= 'z'
  }

  /** A two-word camelCase key becomes the two words joined by '-'. */
  lemma KebabIdOfTwoWords(first: string, capital: char, rest: string)
    requires AllLower(first) && AllLower(rest) && IsAsciiUpper(capital)
    ensures KebabId(first + [capital] + rest) == first + ['-', ToAsciiLower(capital)] + rest
  {
    var word := first + [capital];
    KebabIdAppend(word, rest);
    KebabIdAppend(first, [capital]);
    KebabIdOfLower(first);
    KebabIdOfLower(rest);
    assert [capital][1..] == [];
    assert KebabId([capital]) == ['-', ToAsciiLower(capital)];
    assert KebabId(word) == first + ['-', ToAsciiLower(capital)];
  }

  /** The two numeric settings map to the ids of the inputs the live checks listen on. */
  lemma MaxTweetsInputId()
    ensures KebabId("maxTweets") == "max-tweets"
  {
    assert "maxTweets" == "max" + ['T'] + "weets";
    KebabIdOfTwoWords("max", 'T', "weets");
    assert "max" + ['-', 't'] + "weets" == "max-tweets";
  }

  lemma ApiDelayInputId()
    ensures KebabId("apiDelay") == "api-delay"
  {
    assert "apiDelay" == "api" + ['D'] + "elay";
    KebabIdOfTwoWords("api", 'D', "elay");
    assert "api" + ['-', 'd'] + "elay" == "api-delay";
  }

  // ---------------------------------------------------------------------------
  // Loading: `{ ...this.defaultSettings, ...stored }`

  /** Copies the own properties of `over` listed in `keys`, in that order, onto `base`. */
  function Spread(base: SettingsObject, keys: seq<string>, over: map<string, Value>): (r: SettingsObject)
    requires Valid(base)
    requires forall k :: k in keys ==> k in over
    ensures Valid(r)
  {
    if keys == [] then base
    else
      var n := |keys| - 1;
      Set(Spread(base, keys[..n], over), keys[n], over[keys[n]])
  }

  /** The spread keeps the base's keys first, in their order; a listed key takes the value of
      `over`, and every other key keeps the base's value. */
  lemma {:induction false} SpreadGets(base: SettingsObject, keys: seq<string>, over: map<string, Value>)
    requires Valid(base)
    requires forall k :: k in keys ==> k in over
    ensures var r := Spread(base, keys, over);
      |base.keys| <= |r.keys| && r.keys[..|base.keys|] == base.keys
      && (forall k :: k in keys ==> Get(r, k) == Some(over[k]))
      && (forall k :: k !in keys ==> Get(r, k) == Get(base, k))
  {
    if keys != [] {
      var n := |keys| - 1;
      var x := keys[n];
      var p := Spread(base, keys[..n], over);
      SpreadGets(base, keys[..n], over);
      var r := Set(p, x, over[x]);
      assert r == Spread(base, keys, over);
      assert r.keys[..|p.keys|] == p.keys;
      forall k | k in keys
        ensures Get(r, k) == Some(over[k])
      {
        if k != x {
          assert k in keys[..n];
        }
      }
      forall k | k !in keys
        ensures Get(r, k) == Get(base, k)
      {
        assert k !in keys[..n];
      }
    }
  }

  /** `{ ...base, ...over }` */
  function Merge(base: SettingsObject, over: SettingsObject): (r: SettingsObject)
    requires Valid(base) && Valid(over)
    ensures Valid(r)
    ensures forall k :: Get(over, k).Some? ==> Get(r, k) == Get(over, k)
    ensures forall k :: Get(over, k).None? ==> Get(r, k) == Get(base, k)
  {
    SpreadGets(base, over.keys, over.entries);
    Spread(base, over.keys, over.entries)
  }

  /** The merged object has every key of the base, in the base's order first; a key the stored
      object has takes its stored value, and every other key keeps the base's value. */
  lemma MergeOverrides(base: SettingsObject, over: SettingsObject)
    requires Valid(base) && Valid(over)
    ensures Valid(Merge(base, over))
    ensures |base.keys| <= |Merge(base, over).keys| && Merge(base, over).keys[..|base.keys|] == base.keys
    ensures forall k :: k in base.keys ==> Get(Merge(base, over), k).Some?
    ensures forall k :: Get(over, k).Some? ==> Get(Merge(base, over), k) == Get(over, k)
    ensures forall k :: Get(over, k).None? ==> Get(Merge(base, over), k) == Get(base, k)
  {
    SpreadGets(base, over.keys, over.entries);
  }

  /** What `chrome.storage.local.get` produced: a failure, or the stored object (None when there is
      none, which spreads as nothing). */
  datatype Stored = StorageFailed | Loaded(value: Option<SettingsObject>)

  function LoadedSettings(stored: Stored): (r: SettingsObject)
    requires stored.Loaded? && stored.value.Some? ==> Valid(stored.value.value)
    ensures Valid(r)
    ensures forall k :: k in DEFAULT_KEYS ==> Get(r, k).Some?
    ensures stored.StorageFailed? || stored.value.None? ==> r == Defaults()
  {
    DefaultsValid();
    match stored
    case StorageFailed => Defaults()
    case Loaded(None) => Merge(Defaults(), Empty())
    case Loaded(Some(m)) =>
      MergeOverrides(Defaults(), m);
      Merge(Defaults(), m)
  }

  // ---------------------------------------------------------------------------
  // Saving

  /** What `document.getElementById(id)` finds: a checkbox or another input, whose `value` is a
      string. */
  datatype FormElement = Checkbox(checked: bool) | Field(value: string)

  function ValueOf(el: FormElement): Value
  {
    match el
    case Checkbox(c) => Bool(c)
    case Field(v) => Str(v)
  }

  /** The `newSettings` object `saveSettings` fills from the form for the given keys, in order. */
  function Collected(keys: seq<string>, form: string -> Option<FormElement>): (r: SettingsObject)
    ensures Valid(r)
    ensures forall k :: k in r.keys ==> k in keys
    ensures forall k :: k in keys ==> (Get(r, k).Some? <==> form(KebabId(k)).Some?)
    ensures forall k :: k in keys && form(KebabId(k)).Some? ==> Get(r, k) == Some(ValueOf(form(KebabId(k)).value))
  {
    if keys == [] then Empty()
    else
      var n := |keys| - 1;
      assert forall k :: k in keys ==> k in keys[..n] || k == keys[n];
      var p := Collected(keys[..n], form);
      match form(KebabId(keys[n]))
      case None => p
      case Some(el) => Set(p, keys[n], ValueOf(el))
  }

  const SAVED_MESSAGE: string := "Settings saved successfully!"
  const SAVE_FAILED_MESSAGE: string := "Failed to save settings. Please try again."
  const RESET_MESSAGE: string := "Settings reset to defaults"

  /** What the user is shown: an alert from the validator, or the notifications in order. */
  datatype SaveOutcome = Alerted(alert: string) | Notified(messages: seq<string>)

  class TweetExportSettings {
    var settings: SettingsObject

    ghost predicate Consistent()
      reads this
    {
      Valid(settings)
    }

    /** `new TweetExportSettings()`: `this.settings = {}`; the load `init` starts is asynchronous
        and completes later, as `LoadSettings`. */
    constructor()
      ensures Consistent() && settings == Empty()
    {
      settings := Empty();
    }

    /** The completion of `loadSettings`. */
    method LoadSettings(stored: Stored)
      requires stored.Loaded? && stored.value.Some? ==> Valid(stored.value.value)
      modifies this
      ensures Consistent() && settings == LoadedSettings(stored)
    {
      DefaultsValid();
      match stored
      case StorageFailed =>
        settings := Defaults();
      case Loaded(v) =>
        var over := if v.Some? then v.value else Empty();
        settings := Merge(Defaults(), over);
    }

    /** The `forEach` over the keys (the default keys) that fills `newSettings`. */
    method CollectForm(keys: seq<string>, form: string -> Option<FormElement>) returns (r: SettingsObject)
      ensures r == Collected(keys, form)
    {
      r := Empty();
      var i := 0;
      while i < |keys|
        invariant 0 <= i <= |keys|
        invariant r == Collected(keys[..i], form)
      {
        var key := keys[i];
        assert keys[..i + 1][..i] == keys[..i];
        var el := form(KebabId(key));
        if el.Some? {
          r := Set(r, key, ValueOf(el.value));
        }
        i := i + 1;
      }
      assert keys[..i] == keys;
    }

    /** `saveSettings`: the form is collected and validated, and `this.settings` is replaced only
        when validation passes. A storage write that fails (`storageFails`) comes after the
        replacement and is reported as a failure; so is a rejected settings-changed message
        (`messageFails`), after the success notification. */
    method SaveSettings(form: string -> Option<FormElement>, storageFails: bool, messageFails: bool) returns (outcome: SaveOutcome)
      requires Consistent()
      modifies this
      ensures Consistent()
      ensures var v := Validate(Collected(DEFAULT_KEYS, form));
        && (v.Accepted? ==> settings == Collected(DEFAULT_KEYS, form))
        && (!v.Accepted? ==> settings == old(settings))
        && (v.Rejected? ==> outcome == Alerted(v.alert))
        && (v.Thrown? ==> outcome == Notified([SAVE_FAILED_MESSAGE]))
        && (v.Accepted? ==>
              outcome == if storageFails then Notified([SAVE_FAILED_MESSAGE])
                else if messageFails then Notified([SAVED_MESSAGE, SAVE_FAILED_MESSAGE])
                else Notified([SAVED_MESSAGE]))
    {
      DefaultsValid();
      var newSettings := CollectForm(DEFAULT_KEYS, form);
      var v := Validate(newSettings);
      if v.Rejected? {
        return Alerted(v.alert);
      }
      if v.Thrown? {
        return Notified([SAVE_FAILED_MESSAGE]);
      }
      settings := newSettings;
      if storageFails {
        return Notified([SAVE_FAILED_MESSAGE]);
      }
      if messageFails {
        return Notified([SAVED_MESSAGE, SAVE_FAILED_MESSAGE]);
      }
      return Notified([SAVED_MESSAGE]);
    }

    /** `resetSettings`: only when the user confirms, the settings become a copy of the defaults,
        before the storage write. A write that fails (`storageFails`) rejects the handler's promise
        before the notification, so nothing is shown; otherwise the reset is notified. */
    method ResetSettings(confirmed: bool, storageFails: bool) returns (shown: seq<string>)
      requires Consistent()
      modifies this
      ensures Consistent()
      ensures settings == if confirmed then Defaults() else old(settings)
      ensures shown == if confirmed && !storageFails then [RESET_MESSAGE] else []
    {
      DefaultsValid();
      shown := [];
      if confirmed {
        settings := Defaults();
        if !storageFails {
          shown := [RESET_MESSAGE];
        }
      }
    }
  }
}
