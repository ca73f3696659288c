/** The input validators: model ids, prompts, error messages, regions and configuration. */
module Validators {
  import opened Outcomes

  /** A Python value as the validators see it: they test its type with `isinstance`.
      `bool` is a subclass of `int`; a `float` is finite, infinite or NaN. */
  datatype Value =
    | VInt(i: int)
    | VBool(b: bool)
    | VFloat(x: real)
    | VInf(positive: bool)
    | VNaN
    | VStr(s: string)
    | VNone
    | VOther

  // ---------------------------------------------------------------- model ids

  /** The allow-list: each pattern is `^<prefix>.*`, that is, "starts with <prefix>". */
  const AllowedPrefixes: seq<string> := [
    "anthropic.claude-", "amazon.nova-", "meta.llama", "us.", "eu.",
    "global.", "regional.", "arn:aws:bedrock:"
  ]

  predicate StartsWith(s: string, prefix: string) {
    |prefix| <= |s| && s[..|prefix|] == prefix
  }

  /** `any(re.match(p, s) for p in patterns)`, scanning the list from the front. */
  function AnyPrefix(prefixes: seq<string>, s: string): (b: bool)
    ensures b <==> exists i :: 0 <= i < |prefixes| && StartsWith(s, prefixes[i])
  {
    if prefixes == [] then false
    else if StartsWith(s, prefixes[0]) then true
    else
      var rest := AnyPrefix(prefixes[1..], s);
      assert forall i :: 1 <= i < |prefixes| ==> prefixes[i] == prefixes[1..][i - 1];
      rest
  }

  /** `validate_model_id`: a string of at most 200 characters that starts with an allowed prefix. */
  function ValidateModelId(v: Value): (ok: bool)
    ensures ok <==> v.VStr? && |v.s| <= 200 &&
                    exists i :: 0 <= i < |AllowedPrefixes| && StartsWith(v.s, AllowedPrefixes[i])
  {
    if !v.VStr? || |v.s| > 200 then false else AnyPrefix(AllowedPrefixes, v.s)
  }

  /** The examples of `validate_model_id`'s documentation. */
  lemma ModelIdExamples()
    ensures ValidateModelId(VStr("anthropic.claude-3-haiku-20240307-v1:0"))
    ensures !ValidateModelId(VStr("invalid.model"))
    ensures !ValidateModelId(VInt(0))
  {
    assert StartsWith("anthropic.claude-3-haiku-20240307-v1:0", AllowedPrefixes[0]);
    var bad := "invalid.model";
    forall i | 0 <= i < |AllowedPrefixes| ensures !StartsWith(bad, AllowedPrefixes[i]) {
      assert AllowedPrefixes[i][0] != bad[0];
    }
  }

  // ---------------------------------------------------------------- prompts

  /** Python's `str.isspace`. */
  predicate IsSpace(c: char) {
    var n := c as int;
    (9 <= n <= 13) || (28 <= n <= 32) || n == 0x85 || n == 0xA0 || n == 0x1680 ||
    (0x2000 <= n <= 0x200A) || n == 0x2028 || n == 0x2029 || n == 0x202F ||
    n == 0x205F || n == 0x3000
  }

  /** Where the whitespace that leads `s[i..]` ends: the index `lstrip()` cuts at. */
  function Lead(s: string, i: nat): (j: nat)
    requires i <= |s|
    ensures i <= j <= |s|
    ensures forall k :: i <= k < j ==> IsSpace(s[k])
    ensures j < |s| ==> !IsSpace(s[j])
    decreases |s| - i
  {
    if i < |s| && IsSpace(s[i]) then Lead(s, i + 1) else i
  }

  /** Where the whitespace that ends `s[lo..hi]` starts: the index `rstrip()` cuts at. */
  function Trail(s: string, lo: nat, hi: nat): (j: nat)
    requires lo <= hi <= |s|
    ensures lo <= j <= hi
    ensures forall k :: j <= k < hi ==> IsSpace(s[k])
    ensures j > lo ==> !IsSpace(s[j - 1])
    decreases hi - lo
  {
    if hi > lo && IsSpace(s[hi - 1]) then Trail(s, lo, hi - 1) else hi
  }

  /** `strip()`: the input with exactly its leading and its trailing whitespace cut off. */
  function Strip(s: string): (r: string)
    ensures StripOf(s, Lead(s, 0), r)
    ensures |r| <= |s|
    ensures r != [] ==> !IsSpace(r[0]) && !IsSpace(r[|r| - 1])
  {
    var i := Lead(s, 0);
    s[i..Trail(s, i, |s|)]
  }

  /** `r` is `s` less the `i` whitespace characters that lead it and a run of trailing
      whitespace. */
  ghost predicate StripOf(s: string, i: int, r: string) {
    0 <= i && i + |r| <= |s| && r == s[i..i + |r|] &&
    (forall k :: 0 <= k < i ==> IsSpace(s[k])) &&
    (forall k :: i + |r| <= k < |s| ==> IsSpace(s[k]))
  }

  /** Stripping twice is stripping once. */
  lemma StripIdempotent(s: string)
    ensures Strip(Strip(s)) == Strip(s)
  {
    var u := Strip(s);
    if u != [] {
      assert Lead(u, 0) == 0;
      assert Trail(u, 0, |u|) == |u|;
      assert u[0..|u|] == u;
    }
  }

  /** `sanitize_prompt`: a `ValueError` for a non-string or for more than 10000
      characters; otherwise the prompt stripped of surrounding whitespace. */
  function SanitizePrompt(v: Value): (r: Result<string>)
    ensures !v.VStr? ==> r == Err(ValueError("Prompt must be a string"))
    ensures v.VStr? && |v.s| > 10000 ==> r == Err(ValueError("Prompt too long"))
    ensures r.Ok? <==> v.VStr? && |v.s| <= 10000
    ensures r.Ok? ==> r.value == Strip(v.s)
    ensures r.Ok? ==> |r.value| <= |v.s| &&
                      (r.value != [] ==> !IsSpace(r.value[0]) && !IsSpace(r.value[|r.value| - 1]))
  {
    if !v.VStr? then Err(ValueError("Prompt must be a string"))
    else if |v.s| > 10000 then Err(ValueError("Prompt too long"))
    else Ok(Strip(v.s))
  }

  /** The example of `sanitize_prompt`'s documentation. */
  lemma SanitizePromptExample()
    ensures SanitizePrompt(VStr(" Hello world ")) == Ok("Hello world")
  {
    var s := " Hello world ";
    assert IsSpace(s[0]) && !IsSpace(s[1]);
    assert Lead(s, 0) == Lead(s, 1) == 1;
    assert IsSpace(s[12]) && !IsSpace(s[11]);
    assert Trail(s, 1, 13) == Trail(s, 1, 12) == 12;
    assert s[1..12] == "Hello world";
  }

  /** Sanitizing a sanitized prompt changes nothing. */
  lemma SanitizePromptIdempotent(v: Value)
    requires SanitizePrompt(v).Ok?
    ensures SanitizePrompt(VStr(SanitizePrompt(v).value)) == SanitizePrompt(v)
  {
    StripIdempotent(v.s);
  }

  // ---------------------------------------------------------------- error messages

  predicate OccursAt(p: string, s: string, i: int) {
    0 <= i && i + |p| <= |s| && s[i..i + |p|] == p
  }

  /** Python's `s.replace(target, repl)`: every non-overlapping occurrence of `target`, scanning
      left to right; an empty `target` puts `repl` before every character and at the end. */
  function Replace(s: string, target: string, repl: string): (r: string)
    ensures target != [] && |repl| <= |target| ==> |r| <= |s|
    ensures target == [] ==> |r| == |s| + (|s| + 1) * |repl|
  {
    if target == [] then InsertEverywhere(s, repl) else ReplaceFrom(s, target, repl, 0)
  }

  /** `s.replace("", repl)`. */
  function InsertEverywhere(s: string, repl: string): (r: string)
    ensures |r| == |s| + (|s| + 1) * |repl|
  {
    if s == [] then repl else repl + [s[0]] + InsertEverywhere(s[1..], repl)
  }

  /** The replacing scan of `s` from index `i` on, for a non-empty target. */
  function ReplaceFrom(s: string, target: string, repl: string, i: nat): (r: string)
    requires target != [] && i <= |s|
    ensures |repl| <= |target| ==> |r| <= |s| - i
    decreases |s| - i
  {
    if i + |target| > |s| then s[i..]
    else if OccursAt(target, s, i) then repl + ReplaceFrom(s, target, repl, i + |target|)
    else [s[i]] + ReplaceFrom(s, target, repl, i + 1)
  }

  /** From `i`, the scan copies the text up to the next occurrence, at `j`, replaces that
      occurrence and resumes right after it. */
  lemma {:induction false} ReplaceFromNext(s: string, target: string, repl: string, i: nat, j: nat)
    requires target != [] && i <= j && OccursAt(target, s, j)
    requires forall k :: i <= k < j ==> !OccursAt(target, s, k)
    ensures ReplaceFrom(s, target, repl, i) ==
            s[i..j] + repl + ReplaceFrom(s, target, repl, j + |target|)
    decreases j - i
  {
    if i == j {
      assert s[i..j] == [];
    } else {
      ReplaceFromSkip(s, target, repl, i);
      ReplaceFromNext(s, target, repl, i + 1, j);
      PrependChar(s, i, j, repl, ReplaceFrom(s, target, repl, j + |target|));
    }
  }

  lemma PrependChar(s: string, i: int, j: int, x: string, y: string)
    requires 0 <= i < j <= |s|
    ensures [s[i]] + (s[i + 1..j] + x + y) == s[i..j] + x + y
  {
    assert [s[i]] + s[i + 1..j] == s[i..j];
  }

  /** A position where the target does not occur, with room for it, is copied. */
  lemma ReplaceFromSkip(s: string, target: string, repl: string, i: nat)
    requires target != [] && i + |target| <= |s| && !OccursAt(target, s, i)
    ensures ReplaceFrom(s, target, repl, i) == [s[i]] + ReplaceFrom(s, target, repl, i + 1)
  {
  }

  /** The first occurrence of `target` in a message, at `j`, becomes `repl`; the text before it
      is kept, and the replacing scan resumes right after it. */
  lemma {:induction false} ReplaceFirstOccurrence(s: string, target: string, repl: string, j: nat)
    requires target != [] && OccursAt(target, s, j)
    requires forall k :: 0 <= k < j ==> !OccursAt(target, s, k)
    ensures Replace(s, target, repl) == s[..j] + repl + ReplaceFrom(s, target, repl, j + |target|)
  {
    ReplaceFromNext(s, target, repl, 0, j);
  }

  /** From `i`, a text with no further occurrence is copied as it is. */
  lemma {:induction false} ReplaceFromAbsent(s: string, target: string, repl: string, i: nat)
    requires target != [] && i <= |s|
    requires forall k :: i <= k ==> !OccursAt(target, s, k)
    ensures ReplaceFrom(s, target, repl, i) == s[i..]
    decreases |s| - i
  {
    if i + |target| <= |s| {
      assert !OccursAt(target, s, i);
      ReplaceFromAbsent(s, target, repl, i + 1);
      assert [s[i]] + s[i + 1..] == s[i..];
    }
  }

  /** A message that does not contain the target is left as it is. */
  lemma ReplaceAbsent(s: string, target: string, repl: string)
    requires target != []
    requires forall i :: !OccursAt(target, s, i)
    ensures Replace(s, target, repl) == s
  {
    ReplaceFromAbsent(s, target, repl, 0);
  }

  /** `sanitize_error_message`: the home directory becomes `~`, then a message longer than
      200 characters keeps its first 200 and gets `...`. `home` is `Path.home()`. */
  function SanitizeErrorMessage(msg: string, home: string): (r: string)
    ensures |r| <= 203
    ensures var sub := Replace(msg, home, "~");
            (|sub| <= 200 ==> r == sub) &&
            (|sub| > 200 ==> |r| == 203 && r[..200] == sub[..200] && r[200..] == "...")
  {
    var sanitized := Replace(msg, home, "~");
    if |sanitized| > 200 then sanitized[..200] + "..." else sanitized
  }

  /** A short message that does not mention the home directory passes through unchanged. */
  lemma ShortMessageUnchanged(msg: string, home: string)
    requires home != [] && |msg| <= 200
    requires forall i :: !OccursAt(home, msg, i)
    ensures SanitizeErrorMessage(msg, home) == msg
  {
    ReplaceAbsent(msg, home, "~");
  }

  // ---------------------------------------------------------------- regions

  predicate RegionChar(c: char) {
    'a' <= c <= 'z' || '0' <= c <= '9' || c == '-'
  }

  predicate AllRegionChars(s: string) {
    forall i :: 0 <= i < |s| ==> RegionChar(s[i])
  }

  /** The intended region format: one or more of `a-z`, `0-9` and `-`, and nothing else. */
  predicate IsValidRegion(s: string) {
    |s| >= 1 && AllRegionChars(s)
  }

  /** How far the greedy `[a-z0-9-]+` runs from the start of `s`. */
  function RegionRun(s: string): (k: nat)
    ensures k <= |s| && AllRegionChars(s[..k])
    ensures k < |s| ==> !RegionChar(s[k])
  {
    if s == [] || !RegionChar(s[0]) then 0
    else
      var n := 1 + RegionRun(s[1..]);
      assert s[..n] == [s[0]] + s[1..][..n - 1];
      n
  }

  /** `re.match(r'^[a-z0-9-]+$', s)` as Python evaluates it: the greedy run must be non-empty,
      and `$` then matches at the end of the string or just before a newline that ends it.
      So it accepts a valid region, optionally followed by one newline. */
  function RegionMatchAsWritten(s: string): (b: bool)
    ensures b <==> IsValidRegion(s) || (|s| >= 2 && s[|s| - 1] == '\n' && IsValidRegion(s[..|s| - 1]))
  {
    var k := RegionRun(s);
    assert k == |s| ==> s[..k] == s;
    assert k == |s| - 1 ==> s[..k] == s[..|s| - 1];
    k >= 1 && (k == |s| || (k == |s| - 1 && s[k] == '\n'))
  }

  /** The pattern as written accepts a region name followed by a newline. */
  lemma TrailingNewlineRegionAccepted()
    ensures RegionMatchAsWritten("us-east-1\n")
    ensures !IsValidRegion("us-east-1\n")
  {
    assert "us-east-1\n"[..9] == "us-east-1";
    assert !RegionChar("us-east-1\n"[9]);
  }

  /** The intended format accepts less than the pattern as written, and the only strings it
      refuses that the pattern accepts are a valid region followed by one newline. */
  lemma RegionCorrectionOnlyDropsNewline(s: string)
    ensures IsValidRegion(s) ==> RegionMatchAsWritten(s)
    ensures RegionMatchAsWritten(s) && !IsValidRegion(s) ==>
              s == s[..|s| - 1] + "\n" && IsValidRegion(s[..|s| - 1])
  {
    if RegionMatchAsWritten(s) && !IsValidRegion(s) {
      assert s == s[..|s| - 1] + [s[|s| - 1]];
    }
  }

  const DefaultRegion := "us-east-1"

  /** `get_secure_region`: `env` is the `AWS_DEFAULT_REGION` variable, `None` when unset.
      The region must have the intended format, or a `ValueError` is raised. */
  function GetSecureRegion(env: Option<string>): (r: Result<string>)
    ensures r.Ok? <==> (env.None? || IsValidRegion(env.value))
    ensures r.Ok? ==> IsValidRegion(r.value) && r.value == (if env.Some? then env.value else DefaultRegion)
    ensures r.Err? ==> r.error == ValueError("Invalid region format")
  {
    var region := if env.Some? then env.value else DefaultRegion;
    assert IsValidRegion(DefaultRegion) by { assert forall i :: 0 <= i < |DefaultRegion| ==> RegionChar(DefaultRegion[i]); }
    if !IsValidRegion(region) then Err(ValueError("Invalid region format")) else Ok(region)
  }

  // ---------------------------------------------------------------- configuration

  predicate IsNumber(v: Value) {
    v.VInt? || v.VBool? || v.VFloat? || v.VInf? || v.VNaN?
  }

  predicate IsInt(v: Value) {
    v.VInt? || v.VBool?
  }

  predicate IsFinite(v: Value) {
    v.VInt? || v.VBool? || v.VFloat?
  }

  function Num(v: Value): real
    requires IsFinite(v)
  {
    match v
    case VInt(i) => i as real
    case VBool(b) => if b then 1.0 else 0.0
    case VFloat(x) => x
  }

  /** Python's `v < x`, `v <= x` and `v > x` for a number `v`: false whenever `v` is NaN. */
  predicate Lt(v: Value, x: real) requires IsNumber(v) {
    if IsFinite(v) then Num(v) < x else v == VInf(false)
  }
  predicate Le(v: Value, x: real) requires IsNumber(v) {
    if IsFinite(v) then Num(v) <= x else v == VInf(false)
  }
  predicate Gt(v: Value, x: real) requires IsNumber(v) {
    if IsFinite(v) then Num(v) > x else v == VInf(true)
  }

  const DefaultTimeout := VInt(30)
  const DefaultMaxTokens := VInt(1000)
  const DefaultTemperature := VFloat(0.7)

  /** `config.get(key, default)`. */
  function Get(config: map<string, Value>, key: string, default: Value): Value {
    if key in config then config[key] else default
  }

  /** The ranges the validated configuration is meant to hold. */
  predicate TimeoutInRange(v: Value) { IsFinite(v) && 0.0 < Num(v) <= 300.0 }
  predicate MaxTokensInRange(v: Value) { IsInt(v) && 0.0 < Num(v) <= 4000.0 }
  predicate TemperatureInRange(v: Value) { IsFinite(v) && 0.0 <= Num(v) <= 1.0 }

  predicate HasNaN(config: map<string, Value>) {
    Get(config, "timeout", DefaultTimeout).VNaN? || Get(config, "temperature", DefaultTemperature).VNaN?
  }

  /** `validate_config` as written: each setting is replaced by its default when it is not
      a number or one of the comparisons against the bounds is true. */
  function ValidateConfigAsWritten(config: map<string, Value>): (r: map<string, Value>)
    ensures r.Keys == {"timeout", "max_tokens", "temperature"}
    ensures MaxTokensInRange(r["max_tokens"])
  {
    var t := Get(config, "timeout", DefaultTimeout);
    var timeout := if !IsNumber(t) || Le(t, 0.0) || Gt(t, 300.0) then DefaultTimeout else t;
    var m := Get(config, "max_tokens", DefaultMaxTokens);
    var maxTokens := if !IsInt(m) || Le(m, 0.0) || Gt(m, 4000.0) then DefaultMaxTokens else m;
    var p := Get(config, "temperature", DefaultTemperature);
    var temperature := if !IsNumber(p) || Lt(p, 0.0) || Gt(p, 1.0) then DefaultTemperature else p;
    map["timeout" := timeout, "max_tokens" := maxTokens, "temperature" := temperature]
  }

  /** A NaN timeout passes the checks as written, since every comparison with NaN is false. */
  lemma NaNTimeoutAccepted()
    ensures ValidateConfigAsWritten(map["timeout" := VNaN])["timeout"] == VNaN
    ensures !TimeoutInRange(ValidateConfigAsWritten(map["timeout" := VNaN])["timeout"])
  {
  }

  /** A NaN temperature passes the checks as written in the same way. */
  lemma NaNTemperatureAccepted()
    ensures ValidateConfigAsWritten(map["temperature" := VNaN])["temperature"] == VNaN
    ensures !TemperatureInRange(ValidateConfigAsWritten(map["temperature" := VNaN])["temperature"])
  {
  }

  /** `validate_config` as intended: each setting is kept only when it is a number inside its
      range, and otherwise replaced by its default. */
  function ValidateConfig(config: map<string, Value>): (r: map<string, Value>)
    ensures r.Keys == {"timeout", "max_tokens", "temperature"}
    ensures TimeoutInRange(r["timeout"]) && MaxTokensInRange(r["max_tokens"]) &&
            TemperatureInRange(r["temperature"])
    ensures r["timeout"] == if TimeoutInRange(Get(config, "timeout", DefaultTimeout))
                            then Get(config, "timeout", DefaultTimeout) else DefaultTimeout
    ensures r["max_tokens"] == if MaxTokensInRange(Get(config, "max_tokens", DefaultMaxTokens))
                               then Get(config, "max_tokens", DefaultMaxTokens) else DefaultMaxTokens
    ensures r["temperature"] == if TemperatureInRange(Get(config, "temperature", DefaultTemperature))
                                then Get(config, "temperature", DefaultTemperature) else DefaultTemperature
  {
    var t := Get(config, "timeout", DefaultTimeout);
    var timeout := if IsNumber(t) && Gt(t, 0.0) && Le(t, 300.0) then t else DefaultTimeout;
    var m := Get(config, "max_tokens", DefaultMaxTokens);
    var maxTokens := if IsInt(m) && Gt(m, 0.0) && Le(m, 4000.0) then m else DefaultMaxTokens;
    var p := Get(config, "temperature", DefaultTemperature);
    var temperature := if IsNumber(p) && !Lt(p, 0.0) && Le(p, 1.0) then p else DefaultTemperature;
    map["timeout" := timeout, "max_tokens" := maxTokens, "temperature" := temperature]
  }

  /** The correction changes nothing unless the timeout or the temperature is NaN. */
  lemma ValidateConfigAgreesWithoutNaN(config: map<string, Value>)
    requires !HasNaN(config)
    ensures ValidateConfig(config) == ValidateConfigAsWritten(config)
  {
  }
}
