/**
 * The `.env` loader of `src/utils/env_loader.py`: each line is trimmed; blank lines and `#`
 * comments are skipped; other lines split at their first `=` into a trimmed key and a
 * trimmed, unquoted value, which is written to the process environment unless the key is
 * already set (or `override` asks for it). The typed getters read that environment, and the
 * listing of loaded variables masks secrets.
 *
 * The process environment is a map; the file is its sequence of lines.
 */
module EnvLoader {
  import opened Wrappers
  import opened Strings
  import opened OrderedDict

  type Environ = map<String, String>

  /** What one line of the file says. */
  datatype Line =
    | Skip                              // blank or a `#` comment
    | Malformed                         // no `=`: a warning, nothing set
    | Assign(key: String, value: String)

  predicate IsQuote(c: char) {
    c == '"' || c == '\''
  }

  /** Removes one pair of matching surrounding quotes (`value[1:-1]`, so a lone quote
      becomes empty). */
  function Unquote(v: String): (r: String)
    ensures |r| <= |v|
    ensures (|v| == 0 || !IsQuote(v[0]) || v[|v| - 1] != v[0]) ==> r == v
  {
    if |v| >= 1 && IsQuote(v[0]) && v[|v| - 1] == v[0] then
      if |v| >= 2 then v[1..|v| - 1] else []
    else v
  }

  /** Quoting and unquoting are inverse. */
  lemma UnquoteQuoted(v: String, q: char)
    requires IsQuote(q)
    ensures Unquote([q] + v + [q]) == v
  {
    assert ([q] + v + [q])[1..|v| + 1] == v;
  }

  /** The classification of one raw line, by its stripped form. */
  function ClassifyLine(raw: String): (r: Line)
    ensures Strip(raw) == [] || Strip(raw)[0] == '#' ==> r == Skip
    ensures r.Malformed? <==> Strip(raw) != [] && Strip(raw)[0] != '#' && '=' !in Strip(raw)
    ensures r.Assign? ==> '=' !in r.key && r.key == Strip(r.key)
  {
    ClassifyTrimmed(Strip(raw))
  }

  /** The classification of a stripped line: blank lines and comments are skipped, a line
      without `=` is malformed, and otherwise the stripped text around the first `=` gives
      the key and the unquoted value. */
  function ClassifyTrimmed(line: String): (r: Line)
    ensures line == [] || line[0] == '#' ==> r == Skip
    ensures r.Malformed? <==> line != [] && line[0] != '#' && '=' !in line
    ensures r.Assign? ==> '=' !in r.key && r.key == Strip(r.key)
  {
    if line == [] || line[0] == '#' then Skip
    else
      ContainsChar(line, '=');
      match IndexOf(line, "=")
      case None => Malformed
      case Some(i) =>
        OccursAtChar(line, '=', i);
        FirstBefore(line, '=', i);
        StripIdempotent(line[..i]);
        Assign(Strip(line[..i]), Unquote(Strip(line[i + 1..])))
  }

  lemma FirstBefore(s: String, c: char, i: nat)
    requires IndexOf(s, [c]) == Some(i)
    ensures c !in s[..i]
  {
    forall j | 0 <= j < i
      ensures s[j] != c
    {
      OccursAtChar(s, c, j);
    }
  }

  lemma StripIdempotent(s: String)
    ensures Strip(Strip(s)) == Strip(s)
  {
    StripUnpadded(Strip(s));
  }

  /** A line written as `key=value` reads back as that key and the unquoted value; the value
      may itself contain `=`. */
  lemma ClassifyAssignment(k: String, v: String)
    requires k != [] && Unpadded(k) && '=' !in k && k[0] != '#'
    requires Unpadded(v)
    ensures ClassifyLine(k + "=" + v) == Assign(k, Unquote(v))
  {
    var line := k + "=" + v;
    AssignmentLine(k, v);
    StripUnpadded(line);
    IndexOfChar(line, '=', |k|);
    assert IndexOf(line, "=") == Some(|k|);
    ClassifyAt(line, |k|);
    var a := line[..|k|];
    var b := line[|k| + 1..];
    assert a == k;
    assert b == v;
    StripUnpadded(k);
    StripUnpadded(v);
    assert ClassifyLine(line) == Assign(Strip(a), Unquote(Strip(b)));
  }

  /** A line `key = value` with white space around the key, the `=` and the value reads
      back as the bare key and the unquoted bare value: the line, the key and the value are
      each stripped. */
  lemma ClassifySpacedAssignment(p1: String, k: String, p2: String, p3: String, v: String, p4: String)
    requires AllSpace(p1) && AllSpace(p2) && AllSpace(p3) && AllSpace(p4)
    requires k != [] && Unpadded(k) && '=' !in k && k[0] != '#'
    requires Unpadded(v)
    ensures ClassifyLine(p1 + k + p2 + "=" + p3 + v + p4) == Assign(k, Unquote(v))
  {
    var rest := SpacedLine(p1, k, p2, p3, v, p4);
    PaddedKey(k, p2);
    PaddedValue(p3, v);
    ClassifyKeyRest(k + p2, rest, k, v);
  }

  lemma PaddedKey(k: String, p2: String)
    requires AllSpace(p2) && k != [] && Unpadded(k) && '=' !in k
    ensures '=' !in k + p2 && Strip(k + p2) == k && (k + p2)[0] == k[0]
  {
    SpacesHoldNoEquals(p2);
    StripAround([], k, p2);
    assert [] + k + p2 == k + p2;
  }

  lemma PaddedValue(p3: String, v: String)
    requires AllSpace(p3) && Unpadded(v)
    ensures Strip(if v == [] then [] else p3 + v) == v
  {
    if v != [] {
      StripAround(p3, v, []);
      assert p3 + v + [] == p3 + v;
    }
  }

  /** A spaced assignment line strips to the padded key, the `=` and what follows it up to
      the end of the value: nothing when the value is empty, the padding and the value
      otherwise. */
  lemma SpacedLine(p1: String, k: String, p2: String, p3: String, v: String, p4: String) returns (rest: String)
    requires AllSpace(p1) && AllSpace(p2) && AllSpace(p3) && AllSpace(p4)
    requires k != [] && Unpadded(k) && Unpadded(v)
    ensures rest == if v == [] then [] else p3 + v
    ensures Strip(p1 + k + p2 + "=" + p3 + v + p4) == (k + p2) + "=" + rest
  {
    if v == [] {
      rest := [];
      var line := (k + p2) + "=" + rest;
      Regroup(p1, k, p2, p3, v, p4, rest);
      AllSpaceAppend(p3, p4);
      assert line[0] == k[0] && line[|line| - 1] == '=';
      StripAround(p1, line, p3 + p4);
    } else {
      rest := p3 + v;
      var line := (k + p2) + "=" + rest;
      Regroup(p1, k, p2, p3, v, p4, rest);
      assert line[0] == k[0] && line[|line| - 1] == v[|v| - 1];
      StripAround(p1, line, p4);
    }
  }

  /** The same line, grouped as padding, stripped text and padding. */
  lemma Regroup(p1: String, k: String, p2: String, p3: String, v: String, p4: String, rest: String)
    requires rest == if v == [] then [] else p3 + v
    ensures v == [] ==> p1 + k + p2 + "=" + p3 + v + p4 == p1 + ((k + p2) + "=" + rest) + (p3 + p4)
    ensures v != [] ==> p1 + k + p2 + "=" + p3 + v + p4 == p1 + ((k + p2) + "=" + rest) + p4
  {
  }

  lemma AllSpaceAppend(a: String, b: String)
    requires AllSpace(a) && AllSpace(b)
    ensures AllSpace(a + b)
  {
    assert forall j :: 0 <= j < |a + b| ==> (a + b)[j] in a || (a + b)[j] in b;
  }

  /** `key=rest` with no `=` in the key classifies by the stripped key and rest, wherever
      the line came from. */
  lemma ClassifyKeyRest(key: String, rest: String, k: String, v: String)
    requires key != [] && key[0] != '#' && '=' !in key
    requires Strip(key) == k && Strip(rest) == v
    ensures forall raw :: Strip(raw) == key + "=" + rest ==> ClassifyLine(raw) == Assign(k, Unquote(v))
  {
    SplitAtFirstEquals(key, rest);
    ClassifyAt(key + "=" + rest, |key|);
  }

  lemma SpacesHoldNoEquals(p: String)
    requires AllSpace(p)
    ensures '=' !in p
  {
  }

  /** The first `=` of `key=rest` is the one after the key when the key holds none. */
  lemma SplitAtFirstEquals(key: String, rest: String)
    requires '=' !in key
    ensures var line := key + "=" + rest;
      IndexOf(line, "=") == Some(|key|) && line[..|key|] == key && line[|key| + 1..] == rest
  {
    var line := key + "=" + rest;
    assert line[..|key|] == key && line[|key|] == '=';
    assert line[|key| + 1..] == rest;
    IndexOfChar(line, '=', |key|);
  }

  lemma AssignmentLine(k: String, v: String)
    requires k != [] && Unpadded(k) && Unpadded(v)
    ensures var line := k + "=" + v;
      && line[0] == k[0] && line[|k|] == '=' && line[..|k|] == k && line[|k| + 1..] == v
      && Unpadded(line)
  {
    var line := k + "=" + v;
    assert line[..|k|] == k;
    assert line[|k| + 1..] == v;
    if v != [] {
      assert line[|line| - 1] == v[|v| - 1];
    }
  }

  lemma ClassifyAt(line: String, i: nat)
    requires line != [] && line[0] != '#'
    requires IndexOf(line, "=") == Some(i)
    ensures ClassifyTrimmed(line) == Assign(Strip(line[..i]), Unquote(Strip(line[i + 1..])))
  {
  }

  /** `os.environ[key] = value` raises for an empty name or a NUL character (POSIX
      `putenv`); the key never holds `=` here. */
  predicate Illegal(k: String, v: String) {
    k == [] || '\0' in k || '\0' in v
  }

  /** The classified lines of a file, in order. */
  function ClassifyLines(lines: seq<String>): (r: seq<Line>)
    ensures |r| == |lines| && forall j :: 0 <= j < |lines| ==> r[j] == ClassifyLine(lines[j])
  {
    seq(|lines|, j requires 0 <= j < |lines| => ClassifyLine(lines[j]))
  }

  /** The line loop over classified lines from the given environment: the environment it
      leaves, the assignments it made in order (which `loaded_vars` records), and false when
      an assignment raised, which ends the loop with the earlier assignments kept. */
  function LoadLines(env: Environ, lines: seq<Line>, override: bool): (r: (Environ, seq<(String, String)>, bool))
    ensures env.Keys <= r.0.Keys
    decreases |lines|
  {
    if lines == [] then (env, [], true)
    else
      var rest := lines[1..];
      var line := lines[0];
      if line.Assign? && (override || line.key !in env) then
        if Illegal(line.key, line.value) then (env, [], false)
        else
          var t := LoadLines(env[line.key := line.value], rest, override);
          (t.0, [(line.key, line.value)] + t.1, t.2)
      else LoadLines(env, rest, override)
  }

  /** Without `override` no variable already set changes. */
  lemma {:induction false} LoadLinesKeeps(env: Environ, lines: seq<Line>, k: String)
    requires k in env
    ensures LoadLines(env, lines, false).0[k] == env[k]
    decreases |lines|
  {
    if lines != [] {
      var line := lines[0];
      if line.Assign? && line.key !in env && !Illegal(line.key, line.value) {
        LoadLinesKeeps(env[line.key := line.value], lines[1..], k);
      } else {
        LoadLinesKeeps(env, lines[1..], k);
      }
    }
  }

  /** Every variable the loop sets or changes was assigned that value by some line. */
  lemma {:induction false} LoadLinesSources(env: Environ, lines: seq<Line>, override: bool, k: String)
    requires var e := LoadLines(env, lines, override).0; k in e && (k !in env || e[k] != env[k])
    ensures exists j :: 0 <= j < |lines| && lines[j] == Assign(k, LoadLines(env, lines, override).0[k])
    decreases |lines|
  {
    var e := LoadLines(env, lines, override).0;
    var rest := lines[1..];
    var line := lines[0];
    if line.Assign? && (override || line.key !in env) && !Illegal(line.key, line.value) {
      if k == line.key && e[k] == line.value {
        assert lines[0] == Assign(k, e[k]);
      } else {
        LoadLinesSources(env[line.key := line.value], rest, override, k);
        var j :| 0 <= j < |rest| && rest[j] == Assign(k, e[k]);
        assert lines[j + 1] == rest[j];
      }
    } else {
      LoadLinesSources(env, rest, override, k);
      var j :| 0 <= j < |rest| && rest[j] == Assign(k, e[k]);
      assert lines[j + 1] == rest[j];
    }
  }

  /** When the loop completes, every key some line assigns is set: with `override` each such
      line was applied, without it the key was either applied or already present. */
  lemma {:induction false} LoadLinesComplete(env: Environ, lines: seq<Line>, override: bool, j: nat)
    requires LoadLines(env, lines, override).2
    requires j < |lines| && lines[j].Assign?
    ensures lines[j].key in LoadLines(env, lines, override).0
    decreases |lines|
  {
    var rest := lines[1..];
    if j > 0 {
      assert lines[j] == rest[j - 1];
      var line := lines[0];
      if line.Assign? && (override || line.key !in env) {
        LoadLinesComplete(env[line.key := line.value], rest, override, j - 1);
      } else {
        LoadLinesComplete(env, rest, override, j - 1);
      }
    }
  }

  /** The value the last line assigning `k` gives, if any line does. */
  function LastAssigned(lines: seq<Line>, k: String): Option<String>
    decreases |lines|
  {
    if lines == [] then None
    else match LastAssigned(lines[1..], k)
      case Some(v) => Some(v)
      case None => if lines[0].Assign? && lines[0].key == k then Some(lines[0].value) else None
  }

  /** The value the first line assigning `k` gives, if any line does. */
  function FirstAssigned(lines: seq<Line>, k: String): Option<String>
    decreases |lines|
  {
    if lines == [] then None
    else if lines[0].Assign? && lines[0].key == k then Some(lines[0].value)
    else FirstAssigned(lines[1..], k)
  }

  predicate AssignsAt(lines: seq<Line>, j: int, k: String) {
    0 <= j < |lines| && lines[j].Assign? && lines[j].key == k
  }

  /** `LastAssigned` is the value of an assigning line with no assigning line after it, and
      `None` exactly when no line assigns `k`. */
  lemma {:induction false} LastAssignedIsLast(lines: seq<Line>, k: String)
    ensures LastAssigned(lines, k).None? <==> forall j :: !AssignsAt(lines, j, k)
    ensures LastAssigned(lines, k).Some? ==> exists j ::
      && AssignsAt(lines, j, k) && lines[j].value == LastAssigned(lines, k).value
      && forall j' :: j < j' ==> !AssignsAt(lines, j', k)
    decreases |lines|
  {
    if lines != [] {
      var rest := lines[1..];
      LastAssignedIsLast(rest, k);
      assert forall j :: 0 < j < |lines| ==> (AssignsAt(lines, j, k) <==> AssignsAt(rest, j - 1, k));
      match LastAssigned(rest, k)
      case Some(v) =>
        var j :| AssignsAt(rest, j, k) && rest[j].value == v && forall j' :: j < j' ==> !AssignsAt(rest, j', k);
        assert AssignsAt(lines, j + 1, k) && lines[j + 1].value == v;
        forall j' | j + 1 < j'
          ensures !AssignsAt(lines, j', k)
        {
          assert !AssignsAt(rest, j' - 1, k);
        }
      case None =>
        if AssignsAt(lines, 0, k) {
          assert forall j' :: 0 < j' ==> !AssignsAt(lines, j', k);
        }
    }
  }

  /** With `override`, a completed load leaves every key the lines assign holding the value
      of its last assigning line, and every other variable as it was. */
  lemma {:induction false} LoadLinesOverride(env: Environ, lines: seq<Line>, k: String)
    requires LoadLines(env, lines, true).2
    ensures var e := LoadLines(env, lines, true).0;
      match LastAssigned(lines, k)
      case Some(v) => k in e && e[k] == v
      case None => (k in e <==> k in env) && (k in env ==> e[k] == env[k])
    decreases |lines|
  {
    if lines != [] {
      var line := lines[0];
      var rest := lines[1..];
      if line.Assign? {
        assert !Illegal(line.key, line.value);
        LoadLinesOverride(env[line.key := line.value], rest, k);
      } else {
        LoadLinesOverride(env, rest, k);
      }
    }
  }

  /** Without `override`, a completed load gives a variable that was not set the value of the
      first line assigning it (later lines find it set), and leaves it unset when no line
      assigns it. */
  lemma {:induction false} LoadLinesFirstWins(env: Environ, lines: seq<Line>, k: String)
    requires LoadLines(env, lines, false).2 && k !in env
    ensures var e := LoadLines(env, lines, false).0;
      match FirstAssigned(lines, k)
      case Some(v) => k in e && e[k] == v
      case None => k !in e
    decreases |lines|
  {
    if lines != [] {
      var line := lines[0];
      var rest := lines[1..];
      if line.Assign? && line.key !in env {
        assert !Illegal(line.key, line.value);
        if line.key == k {
          LoadLinesKeeps(env[k := line.value], rest, k);
        } else {
          LoadLinesFirstWins(env[line.key := line.value], rest, k);
        }
      } else {
        LoadLinesFirstWins(env, rest, k);
      }
    }
  }

  /** The `.env` file: absent, or the lines read before the end or before a read error. */
  datatype EnvFile = Missing | Readable(lines: seq<String>, readFails: bool)

  /** `EnvLoader`'s own state: whether a load succeeded, and the variables it set. */
  datatype Loader = Loader(loaded: bool, vars: Dict)

  const FreshLoader := Loader(false, [])

  /** `EnvLoader.load_env`. A loader that has loaded answers true without reading unless
      `override` is set; a missing file gives false; otherwise the lines are applied and a
      raise (illegal assignment or read error) gives false without marking the loader. */
  function LoadEnv(loader: Loader, env: Environ, file: EnvFile, override: bool): (r: (Loader, Environ, bool))
    ensures loader.loaded && !override ==> r == (loader, env, true)
    ensures file.Missing? && !(loader.loaded && !override) ==> r == (loader, env, false)
    ensures r.2 ==> r.0.loaded
    ensures r.1.Keys >= env.Keys
  {
    if loader.loaded && !override then (loader, env, true)
    else
      match file
      case Missing => (loader, env, false)
      case Readable(lines, readFails) =>
        var (env', made, ok) := LoadLines(env, ClassifyLines(lines), override);
        var success := ok && !readFails;
        (Loader(loader.loaded || success, PutAll(loader.vars, made)), env', success)
  }

  /** Without `override`, loading never changes a variable that was already set. */
  lemma LoadEnvKeeps(loader: Loader, env: Environ, file: EnvFile, k: String)
    requires k in env
    ensures LoadEnv(loader, env, file, false).1[k] == env[k]
  {
    if file.Readable? {
      LoadLinesKeeps(env, ClassifyLines(file.lines), k);
    }
  }

  /** A successful `load_env(override=True)` of a readable file leaves every key the file
      assigns holding its last assignment, and every other variable as it was. */
  lemma LoadEnvOverride(loader: Loader, env: Environ, lines: seq<String>, k: String)
    requires LoadEnv(loader, env, Readable(lines, false), true).2
    ensures var e := LoadEnv(loader, env, Readable(lines, false), true).1;
      match LastAssigned(ClassifyLines(lines), k)
      case Some(v) => k in e && e[k] == v
      case None => (k in e <==> k in env) && (k in env ==> e[k] == env[k])
  {
    LoadLinesOverride(env, ClassifyLines(lines), k);
  }

  /** The module-level `load_env`, which builds a fresh loader each call. */
  function LoadEnvFresh(env: Environ, file: EnvFile, override: bool): (Loader, Environ, bool) {
    LoadEnv(FreshLoader, env, file, override)
  }

  /** Loading the same lines again without `override` changes nothing, provided the first
      pass either ran without `override` or completed. */
  lemma {:induction false} ReloadStable(env: Environ, lines: seq<Line>, override: bool)
    requires !override || LoadLines(env, lines, override).2
    ensures var e1 := LoadLines(env, lines, override).0;
      LoadLines(e1, lines, false).0 == e1
    decreases |lines|
  {
    if lines != [] {
      var rest := lines[1..];
      var e1 := LoadLines(env, lines, override).0;
      var line := lines[0];
      if line.Assign? && (override || line.key !in env) {
        if !Illegal(line.key, line.value) {
          ReloadStable(env[line.key := line.value], rest, override);
          assert line.key in e1;
        }
      } else {
        ReloadStable(env, rest, override);
      }
    }
  }

  /** A second call of the module-level `load_env` without `override` leaves the environment
      as the first call left it, unless the first call used `override` and failed. */
  lemma ReloadFresh(env: Environ, file: EnvFile, override: bool)
    requires !override || LoadEnvFresh(env, file, override).2
    ensures var e1 := LoadEnvFresh(env, file, override).1;
      LoadEnvFresh(e1, file, false).1 == e1
  {
    if file.Readable? {
      ReloadStable(env, ClassifyLines(file.lines), override);
    }
  }

  // ---------------------------------------------------------------------------------------
  // Typed getters
  // ---------------------------------------------------------------------------------------

  /** `get_int`: the integer the variable holds, or `default` when it is unset or not an
      integer (an unset variable reads as `str(default)`). */
  function GetInt(env: Environ, key: String, default: int): (r: int)
    ensures key !in env ==> r == default
    ensures key in env ==> r == ParseInt(env[key]).GetOr(default)
  {
    ParseIntOfString(default);
    var text := if key in env then env[key] else IntToString(default);
    match ParseInt(text)
    case Some(n) => n
    case None => default
  }

  lemma GetIntRoundTrip(env: Environ, key: String, n: int, default: int)
    ensures GetInt(env[key := IntToString(n)], key, default) == n
  {
    ParseIntOfString(n);
  }

  const TrueWords: set<String> := {"true", "1", "yes", "on"}
  const FalseWords: set<String> := {"false", "0", "no", "off"}

  /** `get_bool`: true for `true`/`1`/`yes`/`on`, false for `false`/`0`/`no`/`off`, in any
      letter case; `default` for anything else, unset included. */
  function GetBool(env: Environ, key: String, default: bool): (r: bool)
    ensures key !in env ==> r == default
    ensures key in env && Lower(env[key]) in TrueWords ==> r
    ensures key in env && Lower(env[key]) in FalseWords ==> !r
    ensures key in env && Lower(env[key]) !in TrueWords && Lower(env[key]) !in FalseWords ==> r == default
  {
    var value := Lower(if key in env then env[key] else "");
    if value in TrueWords then true
    else if value in FalseWords then false
    else default
  }

  /** Letter case does not matter to `get_bool`. */
  lemma GetBoolIgnoresCase(env: Environ, key: String, w: String, default: bool)
    ensures GetBool(env[key := Upper(w)], key, default) == GetBool(env[key := w], key, default)
  {
    LowerUpper(w);
  }

  /** `get_list`: a set, non-empty value split on the separator with each item trimmed;
      otherwise `default or []`. An empty separator raises. */
  function GetList(env: Environ, key: String, sep: String, default: seq<String>): (r: Result<seq<String>, String>)
    ensures r.Err? <==> key in env && env[key] != [] && sep == []
    ensures (key !in env || env[key] == []) ==> r == Ok(default)
    ensures r.Ok? && key in env && env[key] != [] ==>
      && |r.value| == |Split(env[key], sep)|
      && forall i :: 0 <= i < |r.value| ==> r.value[i] == Strip(Split(env[key], sep)[i])
  {
    if key in env && env[key] != [] then
      if sep == [] then Err("empty separator")
      else
        var items := Split(env[key], sep);
        Ok(seq(|items|, i requires 0 <= i < |items| => Strip(items[i])))
    else Ok(default)
  }

  /** Trimmed items joined with the separator read back as the same items. */
  lemma GetListRoundTrip(env: Environ, key: String, items: seq<String>, c: char, default: seq<String>)
    requires |items| >= 1 && Join(items, [c]) != []
    requires forall i :: 0 <= i < |items| ==> c !in items[i] && Strip(items[i]) == items[i]
    ensures GetList(env[key := Join(items, [c])], key, [c], default) == Ok(items)
  {
    var value := Join(items, [c]);
    var env' := env[key := value];
    assert env'[key] == value;
    SplitJoin(items, c);
    var r := GetList(env', key, [c], default);
    assert r.value == items;
  }

  /** `EnvLoader.get_credentials`: username, password and school, the school defaulting to
      `'10'`. */
  function EnvCredentials(env: Environ): (r: (Option<String>, Option<String>, String))
    ensures r.0.Some? <==> "EDU_USERNAME" in env
    ensures r.1.Some? <==> "EDU_PASSWORD" in env
    ensures "EDU_SCHOOL" !in env ==> r.2 == "10"
    ensures "EDU_USERNAME" in env ==> r.0 == Some(env["EDU_USERNAME"])
    ensures "EDU_PASSWORD" in env ==> r.1 == Some(env["EDU_PASSWORD"])
    ensures "EDU_SCHOOL" in env ==> r.2 == env["EDU_SCHOOL"]
  {
    (if "EDU_USERNAME" in env then Some(env["EDU_USERNAME"]) else None,
     if "EDU_PASSWORD" in env then Some(env["EDU_PASSWORD"]) else None,
     if "EDU_SCHOOL" in env then env["EDU_SCHOOL"] else "10")
  }

  // ---------------------------------------------------------------------------------------
  // Listing loaded variables
  // ---------------------------------------------------------------------------------------

  const SensitiveWords: seq<String> := ["password", "secret", "key", "token"]

  /** A key whose lower-cased form contains one of the sensitive words. */
  predicate Sensitive(key: String) {
    exists i :: 0 <= i < |SensitiveWords| && Contains(Lower(key), SensitiveWords[i])
  }

  /** One listed variable: the value, or as many `*` as it has characters. */
  function VarLine(key: String, value: String): String {
    "  " + key + " = " + (if Sensitive(key) then Repeat('*', |value|) else value)
  }

  /** `show_loaded_vars` as the lines it prints. */
  function ShowLoadedVars(loader: Loader): (r: seq<String>)
    ensures !loader.loaded ==> r == ["❌ 尚未加载环境变量"]
    ensures loader.loaded ==> |r| == |loader.vars| + 1 && r[0] == "📋 已加载的环境变量:"
    ensures loader.loaded ==> forall i :: 0 <= i < |loader.vars| ==>
      r[i + 1] == VarLine(loader.vars[i].0, loader.vars[i].1)
  {
    if !loader.loaded then ["❌ 尚未加载环境变量"]
    else
      ["📋 已加载的环境变量:"]
        + seq(|loader.vars|, i requires 0 <= i < |loader.vars| => VarLine(loader.vars[i].0, loader.vars[i].1))
  }

  /** A sensitive variable's line reveals only the length of its value; any other shows the
      value itself. */
  lemma MaskRevealsOnlyLength(key: String, v1: String, v2: String)
    ensures Sensitive(key) && |v1| == |v2| ==> VarLine(key, v1) == VarLine(key, v2)
    ensures !Sensitive(key) ==> VarLine(key, v1) == "  " + key + " = " + v1
  {
  }

  /** Whether a key is sensitive does not depend on its letter case. */
  lemma SensitiveIgnoresCase(key: String)
    ensures Sensitive(Upper(key)) <==> Sensitive(key)
  {
    LowerUpper(key);
  }
}
