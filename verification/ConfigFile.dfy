// The config printer and reader (crates/loom-core/src/lib.rs, render_config and read_config).

module ConfigFile {
  import opened Options
  import opened Words
  import opened Text
  import opened Quoting
  import Decimal

  datatype Config = Config(
    mode: string, kernelPath: string, orgId: string, stateDir: string, runDir: string, logDir: string,
    artifactDir: string, capabilitiesDir: string, pythonPath: string, typescriptPath: string, wasmDir: string,
    serviceHttpAddress: string, serviceTokenEnv: string,
    serviceMaxJobs: U64, servicePollSeconds: U64, serviceMaxIterations: U64,
    logLevel: string, logFormat: string, logMaxBytes: U64, logMaxFiles: U64,
    handoffMode: string, deliveryQueue: string)

  // ----- printing -----

  const KEYS: seq<string> := [
    "mode", "kernel_path", "org_id", "state_dir", "run_dir", "log_dir", "artifact_dir",
    "capabilities_dir",
    "python_path", "typescript_path", "wasm_dir",
    "service_http_address", "service_token_env", "service_max_jobs", "service_poll_seconds", "service_max_iterations",
    "log_level", "log_format", "log_max_bytes", "log_max_files",
    "handoff_mode", "delivery_queue"]

  datatype Value = Text(s: string) | Number(n: U64)

  function Show(v: Value, wide: Table): string {
    match v
    case Text(s) => Quote(s, wide)
    case Number(n) => Decimal.Print(n)
  }

  /** The values, in the order of KEYS. */
  function Fields(c: Config): (values: seq<Value>)
    ensures |values| == |KEYS|
  {
    [Text(c.mode), Text(c.kernelPath), Text(c.orgId), Text(c.stateDir), Text(c.runDir), Text(c.logDir),
        Text(c.artifactDir),
     Text(c.capabilitiesDir),
     Text(c.pythonPath), Text(c.typescriptPath), Text(c.wasmDir),
     Text(c.serviceHttpAddress), Text(c.serviceTokenEnv),
     Number(c.serviceMaxJobs), Number(c.servicePollSeconds), Number(c.serviceMaxIterations),
     Text(c.logLevel), Text(c.logFormat), Number(c.logMaxBytes), Number(c.logMaxFiles),
     Text(c.handoffMode), Text(c.deliveryQueue)]
  }

  function ShowAll(values: seq<Value>, wide: Table): (shown: seq<string>)
    ensures |shown| == |values|
    ensures forall i | 0 <= i < |values| :: shown[i] == Show(values[i], wide)
  {
    seq(|values|, i requires 0 <= i < |values| => Show(values[i], wide))
  }

  function PairLine(key: string, value: string): string {
    key + (" = " + value)
  }

  /** The lines for the keys numbered lo to hi - 1. */
  function PairLines(keys: seq<string>, values: seq<string>, lo: nat, hi: nat): seq<string>
    requires lo <= hi <= |keys| == |values|
  {
    seq(hi - lo, i requires 0 <= i < hi - lo => PairLine(keys[lo + i], values[lo + i]))
  }

  /** The sections of the file. */
  function ConfigLines(keys: seq<string>, values: seq<string>): seq<string>
    requires |keys| == |values| == 22
  {
    ["[runtime]"] + PairLines(keys, values, 0, 7) + ["", "[capabilities]"] + PairLines(keys, values, 7, 8)
    + ["", "[workers]"] + PairLines(keys, values, 8, 11) + ["", "[service]"] + PairLines(keys, values, 11, 16)
    + ["", "[logging]"] + PairLines(keys, values, 16, 20) + ["", "[handoff]"] + PairLines(keys, values, 20, 22)
  }

  function Terminated(lines: seq<string>): string {
    if lines == [] then "" else lines[0] + "\n" + Terminated(lines[1..])
  }

  function RenderConfig(c: Config, wide: Table): string {
    Terminated(ConfigLines(KEYS, ShowAll(Fields(c), wide)))
  }

  // ----- reading -----

  /** `str::lines`: split at line feeds, a carriage return before one belongs to it. */
  function Lines(s: string): seq<string>
    decreases |s|
  {
    if s == "" then []
    else
      match SplitOnce(s, '\n')
      case None => [s]
      case Some(parts) =>
        SplitOnceParts(s, '\n');
        [if parts.0 != "" && parts.0[|parts.0| - 1] == '\r' then parts.0[..|parts.0| - 1] else parts.0] + Lines(parts.1)
  }

  function AddLine(values: map<string, string>, raw: string): map<string, string> {
    var line := Trim(raw);
    if line == "" || line[0] == '#' || line[0] == '[' then values
    else
      match SplitOnce(line, '=')
      case None => values
      case Some((key, value)) => values[Trim(key) := TrimQuotes(Trim(value))]
  }

  function AddLines(values: map<string, string>, lines: seq<string>): map<string, string> {
    if lines == [] then values else AddLine(AddLines(values, lines[..|lines| - 1]), lines[|lines| - 1])
  }

  function Get(values: map<string, string>, key: string, default: string): string {
    if key in values then values[key] else default
  }

  function GetNumber(values: map<string, string>, key: string, default: U64): U64 {
    if key in values then
      match Decimal.ParseU64(values[key])
      case Some(n) => n
      case None => default
    else default
  }

  predicate ValidMode(mode: string) {
    mode == "embedded" || mode == "shadow" || mode == "standalone"
  }

  /** The config that the collected values stand for; `legacyDir` says whether the root has a
      `.loom` directory. */
  function FromValues(values: map<string, string>, legacyDir: bool): Result<Config, string> {
    var legacy := legacyDir && "state_dir" !in values;
    if "mode" !in values then Err("loom.toml missing runtime.mode")
    else if !ValidMode(values["mode"]) then Err("unsupported mode '" + values["mode"] + "'")
    else
      Ok(Config(
        values["mode"],
        Get(values, "kernel_path", ""),
        Get(values, "org_id", "local_foundry"),
        Get(values, "state_dir", if legacy then ".loom" else "state"),
        Get(values, "run_dir", if legacy then ".loom/runtime" else "run"),
        Get(values, "log_dir", if legacy then ".loom/runtime/service" else "logs"),
        Get(values, "artifact_dir", if legacy then ".loom" else "artifacts"),
        Get(values, "capabilities_dir", "capabilities"),
        Get(values, "python_path", "workers/python"),
        Get(values, "typescript_path", "workers/typescript"),
        Get(values, "wasm_dir", "workers/wasm"),
        Get(values, "service_http_address", "127.0.0.1:18910"),
        Get(values, "service_token_env", "LOOM_SERVICE_TOKEN"),
        GetNumber(values, "service_max_jobs", 8),
        GetNumber(values, "service_poll_seconds", 1),
        GetNumber(values, "service_max_iterations", 0),
        Get(values, "log_level", "info"),
        Get(values, "log_format", "jsonl"),
        GetNumber(values, "log_max_bytes", 5 * 1024 * 1024),
        GetNumber(values, "log_max_files", 5),
        Get(values, "handoff_mode", Get(values, "legacy_v1_integration", "off")),
        Get(values, "delivery_queue", Get(values, "legacy_v1_delivery_queue", "state/delivery-queue"))))
  }

  method ReadConfig(contents: string, legacyDir: bool) returns (r: Result<Config, string>)
    ensures r == FromValues(AddLines(map[], Lines(contents)), legacyDir)
  {
    var values: map<string, string> := map[];
    var lines := Lines(contents);
    for i := 0 to |lines|
      invariant values == AddLines(map[], lines[..i])
    {
      assert lines[..i + 1][..i] == lines[..i];
      var line := Trim(lines[i]);
      if line == "" || line[0] == '#' || line[0] == '[' {
        continue;
      }
      var split := SplitOnce(line, '=');
      if split == None {
        continue;
      }
      values := values[Trim(split.value.0) := TrimQuotes(Trim(split.value.1))];
    }
    assert lines[..|lines|] == lines;
    r := FromValues(values, legacyDir);
  }

  // ----- one line -----

  /** Text that trimming leaves alone. */
  predicate Trimmed(s: string) {
    s != "" && !IsWhitespace(s[0]) && !IsWhitespace(s[|s| - 1])
  }

  predicate GoodKey(key: string) {
    Trimmed(key) && key[0] != '#' && key[0] != '[' && forall i | 0 <= i < |key| :: key[i] != '=' && key[i] != '\n'
  }

  predicate GoodValue(value: string) {
    Trimmed(value) && forall i | 0 <= i < |value| :: value[i] != '\n'
  }

  lemma TrimStartBlank(s: string)
    ensures TrimStart(" " + s) == TrimStart(s)
  {
    assert (" " + s)[1..] == s;
  }

  lemma TrimEndBlank(s: string)
    ensures TrimEnd(s + " ") == TrimEnd(s)
  {
    assert (s + " ")[..|s|] == s;
  }

  lemma AddPairLine(values: map<string, string>, key: string, value: string)
    requires GoodKey(key) && GoodValue(value)
    ensures AddLine(values, PairLine(key, value)) == values[key := TrimQuotes(value)]
  {
    var line := PairLine(key, value);
    assert line[0] == key[0] && line[|line| - 1] == value[|value| - 1];
    TrimNothing(line);
    assert line == (key + " ") + ['='] + (" " + value);
    SplitOnceAt(key + " ", '=', " " + value);
    TrimStartBlank(value);
    TrimEndBlank(key);
    TrimNothing(key);
    TrimNothing(value);
    assert TrimStart(key + " ") == key + " ";
  }

  // ----- lines and text -----

  ghost predicate CleanLine(line: string) {
    (forall i | 0 <= i < |line| :: line[i] != '\n') && (line != "" ==> line[|line| - 1] != '\r')
  }

  lemma {:induction false} LinesOfTerminated(lines: seq<string>)
    requires forall i | 0 <= i < |lines| :: CleanLine(lines[i])
    ensures Lines(Terminated(lines)) == lines
  {
    if lines == [] {
    } else {
      var rest := Terminated(lines[1..]);
      assert Terminated(lines) == lines[0] + ['\n'] + rest;
      SplitOnceAt(lines[0], '\n', rest);
      LinesOfTerminated(lines[1..]);
      assert CleanLine(lines[0]);
      assert lines == [lines[0]] + lines[1..];
    }
  }

  // ----- what reading does with any text -----

  /** Lines end at line feeds, and a carriage return before one goes; the last line needs none. */
  lemma LinesExactly(line: string, rest: string)
    requires '\n' !in line
    ensures Lines(line + "\n" + rest)
            == [if line != "" && line[|line| - 1] == '\r' then line[..|line| - 1] else line] + Lines(rest)
    ensures Lines(line) == if line == "" then [] else [line]
  {
    SplitOnceAt(line, '\n', rest);
    SplitOnceFails(line, '\n');
  }

  /** Blank lines, comments, section titles and lines without an equals sign are skipped; any
      other line sets the key before its first equals sign, replacing an earlier value. */
  lemma AddLineExactly(values: map<string, string>, raw: string, key: string, value: string)
    ensures AllWhitespace(raw) ==> AddLine(values, raw) == values
    ensures Trim(raw) != "" && (Trim(raw)[0] == '#' || Trim(raw)[0] == '[') ==> AddLine(values, raw) == values
    ensures '=' !in raw ==> AddLine(values, raw) == values
    ensures Trim(raw) == key + "=" + value && '=' !in key && (key == "" || (key[0] != '#' && key[0] != '[')) ==>
      AddLine(values, raw) == values[Trim(key) := TrimQuotes(Trim(value))]
  {
    TrimsToNothing(raw);
    var line := Trim(raw);
    var lo, hi := TrimDrops(raw);
    SplitOnceFails(line, '=');
    if '=' !in raw {
      assert '=' !in raw[lo..hi];
    }
    if line == key + "=" + value && '=' !in key {
      SplitOnceAt(key, '=', value);
      assert line[0] == if key == "" then '=' else key[0];
    }
  }

  /** The value of a key, or what stands for it when it is absent. */
  ghost predicate Takes(values: map<string, string>, key: string, default: string, got: string) {
    got == if key in values then values[key] else default
  }

  /** The number that a key spells, or what stands for it when it is absent or no u64. */
  ghost predicate TakesNumber(values: map<string, string>, key: string, default: nat, got: nat) {
    got == if key in values && Decimal.ParseU64(values[key]).Some? then Decimal.ParseU64(values[key]).value else default
  }

  /** The defaults; those of the directories depend on an old layout. */
  lemma DefaultsExactly(values: map<string, string>, legacyDir: bool)
    requires "mode" in values && values["mode"] in {"embedded", "shadow", "standalone"}
    ensures var oldLayout := legacyDir && "state_dir" !in values;
            var r := FromValues(values, legacyDir);
            && r.Ok? && r.value.mode == values["mode"]
            && Takes(values, "kernel_path", "", r.value.kernelPath)
            && Takes(values, "org_id", "local_foundry", r.value.orgId)
            && Takes(values, "state_dir", if oldLayout then ".loom" else "state", r.value.stateDir)
            && Takes(values, "run_dir", if oldLayout then ".loom/runtime" else "run", r.value.runDir)
            && Takes(values, "log_dir", if oldLayout then ".loom/runtime/service" else "logs", r.value.logDir)
            && Takes(values, "artifact_dir", if oldLayout then ".loom" else "artifacts", r.value.artifactDir)
            && Takes(values, "capabilities_dir", "capabilities", r.value.capabilitiesDir)
            && Takes(values, "python_path", "workers/python", r.value.pythonPath)
            && Takes(values, "typescript_path", "workers/typescript", r.value.typescriptPath)
            && Takes(values, "wasm_dir", "workers/wasm", r.value.wasmDir)
  {
  }

  /** The defaults of the service; two keys have an older name. */
  lemma ServiceDefaultsExactly(values: map<string, string>, legacyDir: bool)
    requires "mode" in values && values["mode"] in {"embedded", "shadow", "standalone"}
    ensures var r := FromValues(values, legacyDir);
            && r.Ok?
            && Takes(values, "service_http_address", "127.0.0.1:18910", r.value.serviceHttpAddress)
            && Takes(values, "service_token_env", "LOOM_SERVICE_TOKEN", r.value.serviceTokenEnv)
            && TakesNumber(values, "service_max_jobs", 8, r.value.serviceMaxJobs)
            && TakesNumber(values, "service_poll_seconds", 1, r.value.servicePollSeconds)
            && TakesNumber(values, "service_max_iterations", 0, r.value.serviceMaxIterations)
            && Takes(values, "log_level", "info", r.value.logLevel)
            && Takes(values, "log_format", "jsonl", r.value.logFormat)
            && TakesNumber(values, "log_max_bytes", 5242880, r.value.logMaxBytes)
            && TakesNumber(values, "log_max_files", 5, r.value.logMaxFiles)
            && (if "handoff_mode" in values then r.value.handoffMode == values["handoff_mode"]
                else Takes(values, "legacy_v1_integration", "off", r.value.handoffMode))
            && (if "delivery_queue" in values then r.value.deliveryQueue == values["delivery_queue"]
                else Takes(values, "legacy_v1_delivery_queue", "state/delivery-queue", r.value.deliveryQueue))
  {
  }

  /** Reading fails exactly without a mode or with another one. */
  lemma FailsExactly(values: map<string, string>, legacyDir: bool)
    ensures "mode" !in values ==> FromValues(values, legacyDir) == Err("loom.toml missing runtime.mode")
    ensures "mode" in values && values["mode"] !in {"embedded", "shadow", "standalone"} ==>
      FromValues(values, legacyDir) == Err("unsupported mode '" + values["mode"] + "'")
    ensures "mode" in values && values["mode"] in {"embedded", "shadow", "standalone"} ==>
      FromValues(values, legacyDir).Ok?
  {
  }

  // ----- the keys -----

  /** The number of a key in KEYS. */
  ghost function KeyNumber(key: string): int {
    if key == "mode" then 0 else if key == "kernel_path" then 1 else if key == "org_id" then 2
    else if key == "state_dir" then 3 else if key == "run_dir" then 4 else if key == "log_dir" then 5
    else if key == "artifact_dir" then 6 else if key == "capabilities_dir" then 7
    else if key == "python_path" then 8 else if key == "typescript_path" then 9 else if key == "wasm_dir" then 10
    else if key == "service_http_address" then 11 else if key == "service_token_env" then 12
    else if key == "service_max_jobs" then 13 else if key == "service_poll_seconds" then 14
    else if key == "service_max_iterations" then 15 else if key == "log_level" then 16
    else if key == "log_format" then 17 else if key == "log_max_bytes" then 18
    else if key == "log_max_files" then 19 else if key == "handoff_mode" then 20
    else if key == "delivery_queue" then 21 else -1
  }

  lemma KeysAreNumbered(i: nat)
    requires i < |KEYS|
    ensures KeyNumber(KEYS[i]) == i
  {
  }

  /** Lower-case letters and underscores. */
  ghost predicate IsName(s: string) {
    s != "" && forall i | 0 <= i < |s| :: s[i] == '_' || 'a' <= s[i] <= 'z'
  }

  lemma RuntimeNames()
    ensures IsName("mode") && IsName("kernel_path") && IsName("org_id") && IsName("state_dir")
    ensures IsName("run_dir") && IsName("log_dir") && IsName("artifact_dir") && IsName("capabilities_dir")
  {
  }

  lemma WorkerNames()
    ensures IsName("python_path") && IsName("typescript_path") && IsName("wasm_dir")
    ensures IsName("handoff_mode") && IsName("delivery_queue")
  {
  }

  lemma ServiceNames()
    ensures IsName("service_http_address") && IsName("service_token_env") && IsName("service_max_jobs")
    ensures IsName("service_poll_seconds") && IsName("service_max_iterations")
  {
  }

  lemma LoggingNames()
    ensures IsName("log_level") && IsName("log_format") && IsName("log_max_bytes") && IsName("log_max_files")
  {
  }

  lemma KeysAreNames(i: nat)
    requires i < |KEYS|
    ensures IsName(KEYS[i])
  {
    RuntimeNames();
    WorkerNames();
    ServiceNames();
    LoggingNames();
  }

  lemma NamesAreGoodKeys(key: string)
    requires IsName(key)
    ensures GoodKey(key)
  {
  }

  // ----- all lines -----

  ghost predicate GoodPairs(keys: seq<string>, values: seq<string>) {
    && |keys| == |values|
    && (forall i | 0 <= i < |keys| :: GoodKey(keys[i]))
    && (forall i | 0 <= i < |values| :: GoodValue(values[i]))
  }

  /** The map after reading the keys numbered lo to hi - 1. */
  ghost function SetRange(m: map<string, string>, keys: seq<string>, values: seq<string>, lo: nat,
          hi: nat): map<string, string>
    requires lo <= hi <= |keys| == |values|
  {
    if lo == hi then m else SetRange(m, keys, values, lo, hi - 1)[keys[hi - 1] := TrimQuotes(values[hi - 1])]
  }

  lemma {:induction false} AddLinesAppend(m: map<string, string>, a: seq<string>, b: seq<string>)
    ensures AddLines(m, a + b) == AddLines(AddLines(m, a), b)
    decreases |b|
  {
    if b == [] {
      assert a + b == a;
    } else {
      AddLinesAppend(m, a, b[..|b| - 1]);
      assert (a + b)[..|a + b| - 1] == a + b[..|b| - 1];
    }
  }

  lemma AddLinesPush(m: map<string, string>, lines: seq<string>, line: string)
    ensures AddLines(m, lines + [line]) == AddLine(AddLines(m, lines), line)
  {
    assert (lines + [line])[..|lines|] == lines;
  }

  lemma PairLinesPush(keys: seq<string>, values: seq<string>, lo: nat, hi: nat)
    requires lo < hi <= |keys| == |values|
    ensures PairLines(keys, values, lo, hi)
            == PairLines(keys, values, lo, hi - 1) + [PairLine(keys[hi - 1], values[hi - 1])]
  {
  }

  lemma {:induction false} AddPairLines(m: map<string, string>, keys: seq<string>, values: seq<string>, lo: nat,
          hi: nat)
    requires GoodPairs(keys, values) && lo <= hi <= |keys|
    ensures AddLines(m, PairLines(keys, values, lo, hi)) == SetRange(m, keys, values, lo, hi)
  {
    if lo < hi {
      AddPairLines(m, keys, values, lo, hi - 1);
      PairLinesPush(keys, values, lo, hi);
      AddLinesPush(m, PairLines(keys, values, lo, hi - 1), PairLine(keys[hi - 1], values[hi - 1]));
      AddPairLine(SetRange(m, keys, values, lo, hi - 1), keys[hi - 1], values[hi - 1]);
    }
  }

  lemma {:induction false} SetRangeJoin(m: map<string, string>, keys: seq<string>, values: seq<string>, lo: nat,
          mid: nat, hi: nat)
    requires lo <= mid <= hi <= |keys| == |values|
    ensures SetRange(SetRange(m, keys, values, lo, mid), keys, values, mid, hi) == SetRange(m, keys, values, lo, hi)
  {
    if mid < hi {
      SetRangeJoin(m, keys, values, lo, mid, hi - 1);
    }
  }

  /** A section: skipped lines, then pairs. */
  lemma AddSection(m: map<string, string>, skipped: seq<string>, keys: seq<string>, values: seq<string>, lo: nat,
          hi: nat)
    requires GoodPairs(keys, values) && lo <= hi <= |keys|
    requires AddLines(SetRange(m, keys, values, 0, lo), skipped) == SetRange(m, keys, values, 0, lo)
    ensures AddLines(SetRange(m, keys, values, 0, lo), skipped + PairLines(keys, values, lo, hi))
            == SetRange(m, keys, values, 0, hi)
  {
    AddLinesAppend(SetRange(m, keys, values, 0, lo), skipped, PairLines(keys, values, lo, hi));
    AddPairLines(SetRange(m, keys, values, 0, lo), keys, values, lo, hi);
    SetRangeJoin(m, keys, values, 0, lo, hi);
  }

  predicate IsTitle(line: string) {
    Trimmed(line) && line[0] == '['
  }

  lemma SkipTitle(m: map<string, string>, title: string)
    requires IsTitle(title)
    ensures AddLines(m, [title]) == m && AddLines(m, ["", title]) == m
  {
    TrimNothing(title);
    TrimNothing("");
    assert [title][..0] == [] && ["", title][..1] == [""] && [""][..0] == [];
    assert AddLines(m, [""]) == AddLine(m, "") == m;
  }

  lemma AddConfigLines(keys: seq<string>, values: seq<string>)
    requires GoodPairs(keys, values) && |keys| == 22
    ensures AddLines(map[], ConfigLines(keys, values)) == SetRange(map[], keys, values, 0, 22)
  {
    var a := ["[runtime]"] + PairLines(keys, values, 0, 7);
    var b := ["", "[capabilities]"] + PairLines(keys, values, 7, 8);
    var c := ["", "[workers]"] + PairLines(keys, values, 8, 11);
    var d := ["", "[service]"] + PairLines(keys, values, 11, 16);
    var e := ["", "[logging]"] + PairLines(keys, values, 16, 20);
    var f := ["", "[handoff]"] + PairLines(keys, values, 20, 22);
    assert ConfigLines(keys, values) == a + (b + (c + (d + (e + f))));
    SkipTitle(map[], "[runtime]");
    SkipTitle(SetRange(map[], keys, values, 0, 7), "[capabilities]");
    SkipTitle(SetRange(map[], keys, values, 0, 8), "[workers]");
    SkipTitle(SetRange(map[], keys, values, 0, 11), "[service]");
    SkipTitle(SetRange(map[], keys, values, 0, 16), "[logging]");
    SkipTitle(SetRange(map[], keys, values, 0, 20), "[handoff]");
    AddSection(map[], ["[runtime]"], keys, values, 0, 7);
    AddSection(map[], ["", "[capabilities]"], keys, values, 7, 8);
    AddSection(map[], ["", "[workers]"], keys, values, 8, 11);
    AddSection(map[], ["", "[service]"], keys, values, 11, 16);
    AddSection(map[], ["", "[logging]"], keys, values, 16, 20);
    AddSection(map[], ["", "[handoff]"], keys, values, 20, 22);
    AddLinesAppend(map[], a, b + (c + (d + (e + f))));
    AddLinesAppend(SetRange(map[], keys, values, 0, 7), b, c + (d + (e + f)));
    AddLinesAppend(SetRange(map[], keys, values, 0, 8), c, d + (e + f));
    AddLinesAppend(SetRange(map[], keys, values, 0, 11), d, e + f);
    AddLinesAppend(SetRange(map[], keys, values, 0, 16), e, f);
  }

  lemma {:induction false} SetRangeAt(keys: seq<string>, values: seq<string>, n: nat, i: nat)
    requires i < n <= |keys| == |values|
    requires forall j, k | 0 <= j < k < |keys| :: keys[j] != keys[k]
    ensures var m := SetRange(map[], keys, values, 0, n);
            keys[i] in m && m[keys[i]] == TrimQuotes(values[i])
  {
    if i < n - 1 {
      SetRangeAt(keys, values, n - 1, i);
    }
  }

  lemma PairLineClean(key: string, value: string)
    requires GoodKey(key) && GoodValue(value)
    ensures CleanLine(PairLine(key, value))
  {
    var line := PairLine(key, value);
    assert line[|line| - 1] == value[|value| - 1];
    assert " = "[0] == ' ' && " = "[1] == '=' && " = "[2] == ' ';
  }

  lemma ConfigLinesAreClean(keys: seq<string>, values: seq<string>)
    requires GoodPairs(keys, values) && |keys| == 22
    ensures forall i | 0 <= i < |ConfigLines(keys, values)| :: CleanLine(ConfigLines(keys, values)[i])
  {
    forall lo: nat, hi: nat, i | lo <= hi <= |keys| && 0 <= i < hi - lo
        ensures CleanLine(PairLines(keys, values, lo, hi)[i]) {
      PairLineClean(keys[lo + i], values[lo + i]);
    }
  }

  // ----- the printed file -----

  /** The lines of the file: six titled sections with a blank line between them, and one pair per
      key in the order of the keys. */
  lemma ConfigLinesExactly(keys: seq<string>, values: seq<string>)
    requires |keys| == |values| == 22
    ensures var lines := ConfigLines(keys, values);
            && |lines| == 33
            && lines[0] == "[runtime]" && (forall i | 0 <= i < 7 :: lines[1 + i] == keys[i] + " = " + values[i])
            && lines[8] == "" && lines[9] == "[capabilities]" && lines[10] == keys[7] + " = " + values[7]
            && lines[11] == "" && lines[12] == "[workers]"
            && (forall i | 8 <= i < 11 :: lines[5 + i] == keys[i] + " = " + values[i])
            && lines[16] == "" && lines[17] == "[service]"
            && (forall i | 11 <= i < 16 :: lines[7 + i] == keys[i] + " = " + values[i])
            && lines[23] == "" && lines[24] == "[logging]"
            && (forall i | 16 <= i < 20 :: lines[9 + i] == keys[i] + " = " + values[i])
            && lines[29] == "" && lines[30] == "[handoff]"
            && (forall i | 20 <= i < 22 :: lines[11 + i] == keys[i] + " = " + values[i])
  {
    forall i | 0 <= i < 22 ensures PairLine(keys[i], values[i]) == keys[i] + " = " + values[i] {}
  }

  // ----- reading back -----

  lemma ShowIsGood(v: Value, wide: Table)
    ensures GoodValue(Show(v, wide))
  {
    match v
    case Text(s) =>
      EscapeShape(s, wide);
      var q := Quote(s, wide);
      assert q[0] == '"' && q[|q| - 1] == '"';
    case Number(n) =>
      Decimal.PrintIsDigits(n);
      Decimal.PrintValue(n);
  }

  lemma NumberHasNoQuotes(n: U64)
    ensures TrimQuotes(Decimal.Print(n)) == Decimal.Print(n)
  {
    Decimal.PrintIsDigits(n);
    Decimal.PrintValue(n);
  }

  lemma KeysAreGood()
    ensures forall i | 0 <= i < |KEYS| :: GoodKey(KEYS[i])
    ensures forall j, k | 0 <= j < k < |KEYS| :: KEYS[j] != KEYS[k]
  {
    forall i | 0 <= i < |KEYS| ensures GoodKey(KEYS[i]) && KeyNumber(KEYS[i]) == i {
      KeysAreNames(i);
      NamesAreGoodKeys(KEYS[i]);
      KeysAreNumbered(i);
    }
  }

  /** The reader has collected the printed value under its key. */
  ghost predicate Shown(m: map<string, string>, key: string, v: Value, wide: Table) {
    key in m && m[key] == TrimQuotes(Show(v, wide))
  }

  /** The map that the reader collects from the printed values. */
  lemma Collected(values: seq<Value>, wide: Table) returns (m: map<string, string>)
    requires |values| == |KEYS|
    ensures m == AddLines(map[], Lines(Terminated(ConfigLines(KEYS, ShowAll(values, wide)))))
    ensures forall i | 0 <= i < |KEYS| :: Shown(m, KEYS[i], values[i], wide)
  {
    var shown := ShowAll(values, wide);
    forall i | 0 <= i < |values| ensures GoodValue(shown[i]) { ShowIsGood(values[i], wide); }
    KeysAreGood();
    ConfigLinesAreClean(KEYS, shown);
    LinesOfTerminated(ConfigLines(KEYS, shown));
    AddConfigLines(KEYS, shown);
    m := SetRange(map[], KEYS, shown, 0, 22);
    forall i | 0 <= i < |KEYS| ensures Shown(m, KEYS[i], values[i], wide) {
      SetRangeAt(KEYS, shown, 22, i);
    }
  }

  function Unquoted(s: string, wide: Table): string {
    TrimQuotes(Quote(s, wide))
  }

  /** What comes back: every string as its quoting leaves it, every number as it was. */
  function ReadBack(c: Config, wide: Table): Config {
    Config(
      Unquoted(c.mode, wide), Unquoted(c.kernelPath, wide), Unquoted(c.orgId, wide), Unquoted(c.stateDir, wide),
      Unquoted(c.runDir, wide), Unquoted(c.logDir, wide), Unquoted(c.artifactDir, wide),
      Unquoted(c.capabilitiesDir, wide), Unquoted(c.pythonPath, wide), Unquoted(c.typescriptPath, wide),
      Unquoted(c.wasmDir, wide), Unquoted(c.serviceHttpAddress, wide), Unquoted(c.serviceTokenEnv, wide),
      c.serviceMaxJobs, c.servicePollSeconds, c.serviceMaxIterations,
      Unquoted(c.logLevel, wide), Unquoted(c.logFormat, wide), c.logMaxBytes, c.logMaxFiles,
      Unquoted(c.handoffMode, wide), Unquoted(c.deliveryQueue, wide))
  }

  ghost predicate HoldsText(m: map<string, string>, key: string, s: string, wide: Table) {
    key in m && m[key] == Unquoted(s, wide)
  }

  ghost predicate HoldsNumber(m: map<string, string>, key: string, n: U64) {
    key in m && m[key] == Decimal.Print(n)
  }

  ghost predicate HoldsPaths(m: map<string, string>, c: Config, wide: Table) {
    && HoldsText(m, "mode", c.mode, wide) && HoldsText(m, "kernel_path", c.kernelPath, wide)
    && HoldsText(m, "org_id", c.orgId, wide) && HoldsText(m, "state_dir", c.stateDir, wide)
    && HoldsText(m, "run_dir", c.runDir, wide) && HoldsText(m, "log_dir", c.logDir, wide)
    && HoldsText(m, "artifact_dir", c.artifactDir, wide) && HoldsText(m, "capabilities_dir", c.capabilitiesDir, wide)
    && HoldsText(m, "python_path", c.pythonPath, wide) && HoldsText(m, "typescript_path", c.typescriptPath, wide)
    && HoldsText(m, "wasm_dir", c.wasmDir, wide)
  }

  ghost predicate HoldsService(m: map<string, string>, c: Config, wide: Table) {
    && HoldsText(m, "service_http_address", c.serviceHttpAddress, wide)
    && HoldsText(m, "service_token_env", c.serviceTokenEnv, wide)
    && HoldsNumber(m, "service_max_jobs", c.serviceMaxJobs)
    && HoldsNumber(m, "service_poll_seconds", c.servicePollSeconds)
    && HoldsNumber(m, "service_max_iterations", c.serviceMaxIterations)
    && HoldsText(m, "log_level", c.logLevel, wide) && HoldsText(m, "log_format", c.logFormat, wide)
    && HoldsNumber(m, "log_max_bytes", c.logMaxBytes) && HoldsNumber(m, "log_max_files", c.logMaxFiles)
    && HoldsText(m, "handoff_mode", c.handoffMode, wide) && HoldsText(m, "delivery_queue", c.deliveryQueue, wide)
  }

  /** A key list and a value list in the printer's order. */
  ghost predicate PathEntries(keys: seq<string>, values: seq<Value>, c: Config) {
    && |keys| == |values| == 22
    && keys[0] == "mode" && keys[1] == "kernel_path" && keys[2] == "org_id" && keys[3] == "state_dir"
    && keys[4] == "run_dir" && keys[5] == "log_dir" && keys[6] == "artifact_dir" && keys[7] == "capabilities_dir"
    && keys[8] == "python_path" && keys[9] == "typescript_path" && keys[10] == "wasm_dir"
    && values[0] == Text(c.mode) && values[1] == Text(c.kernelPath) && values[2] == Text(c.orgId)
       && values[3] == Text(c.stateDir)
    && values[4] == Text(c.runDir) && values[5] == Text(c.logDir) && values[6] == Text(c.artifactDir)
       && values[7] == Text(c.capabilitiesDir)
    && values[8] == Text(c.pythonPath) && values[9] == Text(c.typescriptPath) && values[10] == Text(c.wasmDir)
  }

  ghost predicate ServiceEntries(keys: seq<string>, values: seq<Value>, c: Config) {
    && |keys| == |values| == 22
    && keys[11] == "service_http_address" && keys[12] == "service_token_env" && keys[13] == "service_max_jobs"
    && keys[14] == "service_poll_seconds" && keys[15] == "service_max_iterations" && keys[16] == "log_level"
    && keys[17] == "log_format" && keys[18] == "log_max_bytes" && keys[19] == "log_max_files"
    && keys[20] == "handoff_mode" && keys[21] == "delivery_queue"
    && values[11] == Text(c.serviceHttpAddress) && values[12] == Text(c.serviceTokenEnv)
       && values[13] == Number(c.serviceMaxJobs)
    && values[14] == Number(c.servicePollSeconds) && values[15] == Number(c.serviceMaxIterations)
       && values[16] == Text(c.logLevel)
    && values[17] == Text(c.logFormat) && values[18] == Number(c.logMaxBytes) && values[19] == Number(c.logMaxFiles)
    && values[20] == Text(c.handoffMode) && values[21] == Text(c.deliveryQueue)
  }

  lemma PrintedEntries(c: Config)
    ensures PathEntries(KEYS, Fields(c), c) && ServiceEntries(KEYS, Fields(c), c)
  {
  }

  lemma CollectedPaths(m: map<string, string>, keys: seq<string>, values: seq<Value>, c: Config, wide: Table)
    requires PathEntries(keys, values, c) && forall i | 0 <= i < |keys| :: Shown(m, keys[i], values[i], wide)
    ensures HoldsPaths(m, c, wide)
  {
  }

  lemma CollectedService(m: map<string, string>, keys: seq<string>, values: seq<Value>, c: Config, wide: Table)
    requires ServiceEntries(keys, values, c) && forall i | 0 <= i < |keys| :: Shown(m, keys[i], values[i], wide)
    ensures HoldsService(m, c, wide)
  {
    NumberHasNoQuotes(c.serviceMaxJobs);
    NumberHasNoQuotes(c.servicePollSeconds);
    NumberHasNoQuotes(c.serviceMaxIterations);
    NumberHasNoQuotes(c.logMaxBytes);
    NumberHasNoQuotes(c.logMaxFiles);
  }

  lemma NumberReads(m: map<string, string>, key: string, n: U64, default: U64)
    requires HoldsNumber(m, key, n)
    ensures GetNumber(m, key, default) == n
  {
    Decimal.PrintParse(n);
  }

  lemma FromHolds(m: map<string, string>, c: Config, wide: Table, legacyDir: bool)
    requires HoldsPaths(m, c, wide) && HoldsService(m, c, wide)
    ensures var r := FromValues(m, legacyDir);
            if ValidMode(Unquoted(c.mode, wide)) then r == Ok(ReadBack(c, wide)) else r.Err?
  {
    NumberReads(m, "service_max_jobs", c.serviceMaxJobs, 8);
    NumberReads(m, "service_poll_seconds", c.servicePollSeconds, 1);
    NumberReads(m, "service_max_iterations", c.serviceMaxIterations, 0);
    NumberReads(m, "log_max_bytes", c.logMaxBytes, 5 * 1024 * 1024);
    NumberReads(m, "log_max_files", c.logMaxFiles, 5);
  }

  /** All strings print as themselves. */
  predicate PlainConfig(c: Config, wide: Table) {
    && Plain(c.mode, wide) && Plain(c.kernelPath, wide) && Plain(c.orgId, wide) && Plain(c.stateDir, wide)
    && Plain(c.runDir, wide) && Plain(c.logDir, wide) && Plain(c.artifactDir, wide)
    && Plain(c.capabilitiesDir, wide) && Plain(c.pythonPath, wide) && Plain(c.typescriptPath, wide)
    && Plain(c.wasmDir, wide) && Plain(c.serviceHttpAddress, wide) && Plain(c.serviceTokenEnv, wide)
    && Plain(c.logLevel, wide) && Plain(c.logFormat, wide)
    && Plain(c.handoffMode, wide) && Plain(c.deliveryQueue, wide)
  }

  lemma ReadsBack(c: Config, wide: Table, legacyDir: bool)
    ensures var r := FromValues(AddLines(map[], Lines(RenderConfig(c, wide))), legacyDir);
            if ValidMode(Unquoted(c.mode, wide)) then r == Ok(ReadBack(c, wide)) else r.Err?
  {
    var m := Collected(Fields(c), wide);
    PrintedEntries(c);
    CollectedPaths(m, KEYS, Fields(c), c, wide);
    CollectedService(m, KEYS, Fields(c), c, wide);
    FromHolds(m, c, wide, legacyDir);
  }

  /** A rendered config is read back as the same config exactly when its mode is valid and
      the printer escapes nothing in its strings. */
  lemma RoundTripExactly(c: Config, wide: Table, legacyDir: bool)
    ensures FromValues(AddLines(map[], Lines(RenderConfig(c, wide))), legacyDir) == Ok(c)
            <==> ValidMode(c.mode) && PlainConfig(c, wide)
  {
    ReadsBack(c, wide, legacyDir);
    forall s ensures Unquoted(s, wide) == s <==> Plain(s, wide) { UnquoteExactly(s, wide); }
    assert ReadBack(c, wide) == c <==> PlainConfig(c, wide);
  }

  /** A path with a quote in it is not read back. */
  lemma QuotedPathIsLost(c: Config, wide: Table, legacyDir: bool)
    requires c.kernelPath == "a\"b"
    ensures FromValues(AddLines(map[], Lines(RenderConfig(c, wide))), legacyDir) != Ok(c)
  {
    RoundTripExactly(c, wide, legacyDir);
    assert !PlainChar(c.kernelPath[1], wide);
  }
}
