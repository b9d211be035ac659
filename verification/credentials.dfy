/**
 * The credential lookup of `src/auth/credentials.py`: the environment first (after the
 * `.env` file was loaded), then `config/config.json`, then interactive prompts. A source is
 * used only when both its username and its password are non-empty. The prompts retry until
 * both are given; here they read from a finite sequence of answers, and running out of
 * answers ends the lookup without credentials.
 */
module Credentials {
  import opened Wrappers
  import opened Strings
  import EnvLoader

  const DefaultSchool: String := "10"

  /** Username, password and school code. */
  datatype Creds = Creds(username: String, password: String, school: String)

  /** A Python value's truth: `None` and the empty string are false. */
  predicate Truthy(v: Option<String>) {
    v.Some? && v.value != []
  }

  /** `config/config.json`: absent, unreadable (unreadable file, invalid JSON, or a top level
      or `educational_system` entry that is not an object), or its `educational_system`
      object. A missing `educational_system` reads as the empty object. */
  datatype ConfigFile = Absent | Broken | Parsed(edu: map<String, String>)

  /** `_get_config_credentials`: the three entries, the school defaulting to `'10'`; absent or
      unreadable gives three `None`s. */
  function ConfigCredentials(config: ConfigFile): (r: (Option<String>, Option<String>, Option<String>))
    ensures !config.Parsed? ==> r == (None, None, None)
    ensures config.Parsed? ==>
      && (r.0.Some? <==> "username" in config.edu)
      && (r.1.Some? <==> "password" in config.edu)
      && r.2.Some?
    ensures config.Parsed? && "school" !in config.edu ==> r.2 == Some(DefaultSchool)
    ensures config.Parsed? && "username" in config.edu ==> r.0 == Some(config.edu["username"])
    ensures config.Parsed? && "password" in config.edu ==> r.1 == Some(config.edu["password"])
    ensures config.Parsed? && "school" in config.edu ==> r.2 == Some(config.edu["school"])
  {
    match config
    case Parsed(edu) =>
      (if "username" in edu then Some(edu["username"]) else None,
       if "password" in edu then Some(edu["password"]) else None,
       Some(if "school" in edu then edu["school"] else DefaultSchool))
    case _ => (None, None, None)
  }

  /** `_get_interactive_credentials` over the answers still to come: username, password,
      school and whether to print the `export` lines. An empty (after `strip()`) username
      is rejected before the password is asked, an empty password before the school is
      asked, and either starts the prompts again. */
  function Interactive(answers: seq<String>): (r: Option<Creds>)
    ensures r.Some? ==> r.value.username != [] && r.value.password != [] && r.value.school != []
    ensures r.Some? ==> Unpadded(r.value.username) && Unpadded(r.value.password)
    decreases |answers|
  {
    if |answers| == 0 then None
    else if Strip(answers[0]) == [] then Interactive(answers[1..])
    else if |answers| == 1 then None
    else if Strip(answers[1]) == [] then Interactive(answers[2..])
    else if |answers| < 4 then None
    else
      StripStripped(answers[0]);
      StripStripped(answers[1]);
      var school := Strip(answers[2]);
      Some(Creds(Strip(answers[0]), Strip(answers[1]), if school == [] then DefaultSchool else school))
  }

  lemma StripStripped(s: String)
    ensures Unpadded(Strip(s))
  {
  }

  /** A blank username answer only repeats the prompt. */
  lemma BlankUsernameRetries(blank: String, rest: seq<String>)
    requires Strip(blank) == []
    ensures Interactive([blank] + rest) == Interactive(rest)
  {
    assert ([blank] + rest)[1..] == rest;
  }

  /** A blank password answer discards the username just given and repeats the prompt. */
  lemma BlankPasswordRetries(user: String, blank: String, rest: seq<String>)
    requires Strip(user) != [] && Strip(blank) == []
    ensures Interactive([user, blank] + rest) == Interactive(rest)
  {
    var answers := [user, blank] + rest;
    assert |answers| >= 2 && answers[0] == user && answers[1] == blank && answers[2..] == rest;
  }

  /** Four complete answers give the trimmed username, password and school; an empty school
      answer means `'10'`; the fourth answer, and anything after it, does not matter. */
  lemma InteractiveAnswers(answers: seq<String>)
    requires |answers| >= 4 && Strip(answers[0]) != [] && Strip(answers[1]) != []
    ensures var school := Strip(answers[2]);
      Interactive(answers)
        == Some(Creds(Strip(answers[0]), Strip(answers[1]), if school == [] then DefaultSchool else school))
  {
  }

  /** Where the credentials came from. */
  datatype Source = FromEnvironment | FromConfig | FromPrompt

  /** `get_credentials`: with `force_input` straight to the prompts; otherwise the
      environment's pair when both are non-empty, else the configuration's pair when both
      are non-empty, else the prompts. */
  function GetCredentials(forceInput: bool, env: EnvLoader.Environ, config: ConfigFile, answers: seq<String>): (r: (Source, Option<Creds>))
    ensures forceInput ==> r == (FromPrompt, Interactive(answers))
    ensures !forceInput ==>
      var (u, p, _) := EnvLoader.EnvCredentials(env);
      Truthy(u) && Truthy(p) ==> r.0 == FromEnvironment
    ensures r.0 == FromEnvironment ==>
      var (u, p, s) := EnvLoader.EnvCredentials(env);
      Truthy(u) && Truthy(p) && r.1 == Some(Creds(u.value, p.value, s))
    ensures r.0 == FromConfig ==>
      var (eu, ep, _) := EnvLoader.EnvCredentials(env);
      var (u, p, s) := ConfigCredentials(config);
      && !(Truthy(eu) && Truthy(ep))
      && Truthy(u) && Truthy(p) && r.1 == Some(Creds(u.value, p.value, s.value))
    ensures r.0 == FromPrompt ==> r.1 == Interactive(answers)
  {
    if forceInput then (FromPrompt, Interactive(answers))
    else
      var (u, p, s) := EnvLoader.EnvCredentials(env);
      if Truthy(u) && Truthy(p) then (FromEnvironment, Some(Creds(u.value, p.value, s)))
      else
        var (cu, cp, cs) := ConfigCredentials(config);
        if Truthy(cu) && Truthy(cp) then (FromConfig, Some(Creds(cu.value, cp.value, cs.value)))
        else (FromPrompt, Interactive(answers))
  }

  /** Non-empty `EDU_USERNAME` and `EDU_PASSWORD` variables are the credentials returned, with
      `EDU_SCHOOL` or the default school. */
  lemma EnvironmentWins(env: EnvLoader.Environ, config: ConfigFile, answers: seq<String>)
    requires "EDU_USERNAME" in env && env["EDU_USERNAME"] != []
    requires "EDU_PASSWORD" in env && env["EDU_PASSWORD"] != []
    ensures GetCredentials(false, env, config, answers) == (FromEnvironment,
      Some(Creds(env["EDU_USERNAME"], env["EDU_PASSWORD"],
                 if "EDU_SCHOOL" in env then env["EDU_SCHOOL"] else DefaultSchool)))
  {
  }

  /** Without a usable environment pair, a non-empty username and password in the
      configuration's `educational_system` entry are the credentials returned. */
  lemma ConfigUsed(env: EnvLoader.Environ, edu: map<String, String>, answers: seq<String>)
    requires "EDU_USERNAME" !in env || "EDU_PASSWORD" !in env
      || env["EDU_USERNAME"] == [] || env["EDU_PASSWORD"] == []
    requires "username" in edu && edu["username"] != []
    requires "password" in edu && edu["password"] != []
    ensures GetCredentials(false, env, Parsed(edu), answers) == (FromConfig,
      Some(Creds(edu["username"], edu["password"],
                 if "school" in edu then edu["school"] else DefaultSchool)))
  {
  }

  /** Whatever the source, credentials handed back always have a non-empty username and
      password. */
  lemma CredentialsNonEmpty(forceInput: bool, env: EnvLoader.Environ, config: ConfigFile, answers: seq<String>)
    requires GetCredentials(forceInput, env, config, answers).1.Some?
    ensures var c := GetCredentials(forceInput, env, config, answers).1.value;
      c.username != [] && c.password != []
  {
  }

  /** The prompts are reached exactly when neither the environment nor the configuration
      holds a usable pair (or input is forced). */
  lemma PromptsOnlyAsLastResort(forceInput: bool, env: EnvLoader.Environ, config: ConfigFile, answers: seq<String>)
    ensures GetCredentials(forceInput, env, config, answers).0 == FromPrompt <==>
      forceInput ||
      ((!Truthy(EnvLoader.EnvCredentials(env).0) || !Truthy(EnvLoader.EnvCredentials(env).1))
        && (!Truthy(ConfigCredentials(config).0) || !Truthy(ConfigCredentials(config).1)))
  {
  }

  /** `validate_credentials`: both present, the username at least 3 characters and the
      password at least 6. The school is not checked. */
  function ValidateCredentials(username: String, password: String, school: String): (r: bool)
    ensures r ==> username != [] && password != []
    ensures r <==> |username| >= 3 && |password| >= 6
  {
    if username == [] || password == [] then false
    else if |username| < 3 then false
    else if |password| < 6 then false
    else true
  }
}
