/**
 * SecureTokenManager as an object over the outside world: the config file, the shell start-up
 * files, the remote replies still to come, the user's lines still to be read and the waits
 * slept are its fields, and each method changes them as the Python method does. Every method
 * is proved to do what the corresponding function over `World` describes, so the properties
 * proved of those functions hold of the object.
 */
module TokenManager {
  import opened Wrappers
  import opened Files
  import opened Paths
  import Prompts
  import opened TokenValidation
  import LegacyTokens
  import opened TokenStore
  import opened TokenFlows
  import opened Seqs

  class SecureTokenManager {
    const env: Env
    var config: ConfigFile
    var shells: FileSystem
    var outcomes: seq<Outcome>
    var called: nat
    var answers: seq<string>
    var read: nat
    var sleeps: seq<nat>

    /** The world as the modelled functions see it. */
    function State(): World
      reads this
    {
      World(config, shells, outcomes, called, answers, read, sleeps)
    }

    /** A manager facing the given config file, shell files, remote replies and user lines. */
    constructor(env: Env, config: ConfigFile, shells: FileSystem, outcomes: seq<Outcome>, answers: seq<string>)
      ensures this.env == env
      ensures State() == World(config, shells, outcomes, 0, answers, 0, [])
    {
      this.env := env;
      this.config := config;
      this.shells := shells;
      this.outcomes := outcomes;
      this.called := 0;
      this.answers := answers;
      this.read := 0;
      this.sleeps := [];
    }

    /** get_user_input on the console: the lines consumed are read off the input. */
    method GetUserInput(required: bool) returns (r: Prompts.Read<string>)
      modifies this
      ensures r == Prompts.Input(old(answers), old(read), required)
      ensures State() == if r.Got? then old(State()).(read := r.next) else EndOfAnswers(old(State()))
    {
      r := Prompts.GetUserInput(answers, read, required);
      if r.Got? {
        read := r.next;
      } else if read < |answers| {
        read := |answers|;
      }
    }

    /** get_user_choice on the console. */
    method GetUserChoice(choices: seq<string>, default: string) returns (r: Prompts.Read<string>)
      modifies this
      ensures r == Prompts.Choice(old(answers), old(read), choices, default)
      ensures State() == if r.Got? then old(State()).(read := r.next) else EndOfAnswers(old(State()))
    {
      r := Prompts.GetUserChoice(answers, read, choices, default);
      if r.Got? {
        read := r.next;
      } else if read < |answers| {
        read := |answers|;
      }
    }

    /** _validate_token(token, max): the calls are taken from the replies and the waits logged. */
    method ValidateToken(token: string, max: nat) returns (info: Option<map<string, string>>)
      modifies this
      ensures info == ValidateIn(old(State()), token, max).0.info
      ensures State() == ValidateIn(old(State()), token, max).1
    {
      var v := TokenValidation.ValidateToken(token, max, outcomes, called);
      info := v.info;
      called := called + v.attempts;
      sleeps := sleeps + v.waits;
    }

    /** _load_secure_token(). */
    method LoadSecureToken() returns (token: Option<string>)
      modifies this
      ensures (token, State()) == Load(env, old(State()))
    {
      if config.NoFile? || config.Unreadable? {
        return None;
      }
      var fields := config.fields;
      if "version" !in fields || fields["version"] != JStr(ConfigVersion) {
        return None;
      }
      if "encrypted_token" !in fields || !Truthy(fields["encrypted_token"]) || !fields["encrypted_token"].JStr? {
        return None;
      }
      token := env.decrypt(fields["encrypted_token"].s);
      if token.Some? && token.value != "" {
        if !env.configWritable {
          return None;
        }
        config := Record(fields["last_used" := JStr(env.now)]);
      }
    }

    /** store_token_securely(token). */
    method StoreTokenSecurely(token: string) returns (ok: bool)
      modifies this
      ensures (ok, State()) == Store(env, old(State()), token)
    {
      var info := ValidateToken(token, 3);
      if info.None? || !env.configWritable {
        return false;
      }
      config := Record(StoredRecord(env, token, info.value));
      return true;
    }

    /** _remove_secure_token(). */
    method RemoveSecureToken()
      modifies this
      ensures State() == Remove(env, old(State()))
    {
      if config != NoFile && env.configWritable {
        config := NoFile;
      }
    }

    /** _detect_legacy_tokens() over the shell start-up files of the environment. */
    method DetectLegacyTokens() returns (found: seq<(string, string)>)
      ensures found == LegacyTokens.Detect(shells, env.shellFiles)
    {
      found := LegacyTokens.DetectLegacyTokens(shells, env.shellFiles);
    }

    /** _cleanup_legacy_tokens(legacy): each file found is rewritten without the marked lines. */
    method CleanupLegacyTokens(legacy: seq<(string, string)>) returns (cleaned: seq<string>)
      modifies this
      ensures (shells, cleaned) == LegacyTokens.Cleanup(old(shells), legacy)
      ensures State() == old(State()).(shells := shells)
    {
      cleaned := [];
      assert legacy[0..] == legacy;
      assert cleaned + LegacyTokens.Cleanup(shells, legacy).1 == LegacyTokens.Cleanup(shells, legacy).1;
      for i := 0 to |legacy|
        invariant LegacyTokens.Cleanup(old(shells), legacy) ==
          (LegacyTokens.Cleanup(shells, legacy[i..]).0, cleaned + LegacyTokens.Cleanup(shells, legacy[i..]).1)
        invariant State() == old(State()).(shells := shells)
      {
        var f := legacy[i].0;
        assert legacy[i..][1..] == legacy[i + 1..];
        if f in shells {
          var newLines := LegacyTokens.CleanLines(ReadLines(shells[f]));
          ghost var rest := LegacyTokens.Cleanup(shells[f := Concat(newLines)], legacy[i + 1..]);
          assert LegacyTokens.Cleanup(shells, legacy[i..]) == (rest.0, [Basename(f)] + rest.1);
          AppendAssoc(cleaned, [Basename(f)], rest.1);
          shells := shells[f := Concat(newLines)];
          cleaned := cleaned + [Basename(f)];
        }
      }
      assert legacy[|legacy|..] == [] && cleaned + [] == cleaned;
    }

    /** _setup_new_token(). */
    method SetupNewToken() returns (r: Result<string, Failure>)
      modifies this
      ensures (r, State()) == Setup(env, old(State()))
    {
      var choice := GetUserChoice(Prompts.YesNo, "y");
      if choice.EndOfInput? {
        return Err(InputEnded);
      }
      if !Yes(choice.value) {
        return Err(Cancelled);
      }
      while true
        invariant Setup(env, old(State())) == SetupLoop(env, State())
        decreases |answers| - read
      {
        var input := GetUserInput(true);
        if input.EndOfInput? {
          return Err(InputEnded);
        }
        var t := input.value;
        if |t| < MinTokenLength {
          continue;
        }
        var info := ValidateToken(t, 3);
        if info.None? {
          continue;
        }
        var ok := StoreTokenSecurely(t);
        if ok {
          return Ok(t);
        }
      }
    }

    /** _setup_new_token() inside the migration's try block, run again when it raises. */
    method SetupInTry() returns (r: Result<Option<string>, Failure>)
      modifies this
      ensures (r, State()) == TokenFlows.SetupInTry(env, old(State()))
    {
      var first := SetupNewToken();
      if first.Ok? {
        return Ok(Some(first.value));
      }
      var second := SetupNewToken();
      r := if second.Ok? then Ok(Some(second.value)) else Err(second.error);
    }

    /** The loop of _handle_migration that picks the first found token that validates. */
    method SelectToken(legacy: seq<(string, string)>) returns (selected: Option<string>)
      modifies this
      ensures (selected, State()) == SelectFrom(env, old(State()), legacy, 0)
    {
      selected := None;
      for i := 0 to |legacy|
        invariant SelectFrom(env, old(State()), legacy, 0) == SelectFrom(env, State(), legacy, i)
      {
        var info := ValidateToken(legacy[i].1, 3);
        if info.Some? {
          return Some(legacy[i].1);
        }
      }
    }

    /** _handle_migration(legacy). */
    method HandleMigration(legacy: seq<(string, string)>) returns (r: Result<Option<string>, Failure>)
      modifies this
      ensures (r, State()) == Migration(env, old(State()), legacy)
    {
      var choice := GetUserChoice(Prompts.YesNo, "y");
      if choice.EndOfInput? {
        var s := SetupNewToken();
        return if s.Ok? then Ok(Some(s.value)) else Err(s.error);
      }
      if !Yes(choice.value) {
        return Ok(None);
      }
      var selected := SelectToken(legacy);
      if selected.None? {
        r := SetupInTry();
        return;
      }
      var ok := StoreTokenSecurely(selected.value);
      if ok {
        var _ := CleanupLegacyTokens(legacy);
        return Ok(selected);
      }
      r := SetupInTry();
    }

    /** get_secure_token(). */
    method GetSecureToken() returns (r: Result<string, Failure>)
      modifies this
      ensures (r, State()) == TokenFlows.GetSecureToken(env, old(State()))
    {
      var token := LoadSecureToken();
      if token.Some? && token.value != "" {
        var info := ValidateToken(token.value, 3);
        if info.Some? {
          return Ok(token.value);
        }
        RemoveSecureToken();
      }
      ghost var w := State();
      var legacy := DetectLegacyTokens();
      if legacy != [] {
        var migrated := HandleMigration(legacy);
        if migrated.Err? {
          return Err(migrated.error);
        }
        if migrated.value.Some? && migrated.value.value != "" {
          return Ok(migrated.value.value);
        }
      }
      r := SetupNewToken();
      assert (r, State()) == WithoutStoredToken(env, w);
    }

    /** diagnose_token(token), with the outcome of the DNS lookup and the HTTPS request given. */
    method DiagnoseToken(token: Option<string>, dnsResolves: bool, httpsReachable: bool) returns (ok: bool)
      modifies this
      ensures (ok, State()) == Diagnose(env, old(State()), token, dnsResolves, httpsReachable)
    {
      if !dnsResolves || !httpsReachable {
        return false;
      }
      var test := token;
      if !(token.Some? && token.value != "") {
        test := LoadSecureToken();
      }
      if test.None? || test.value == "" || |test.value| < MinTokenLength {
        return false;
      }
      var info := ValidateToken(test.value, 1);
      ok := info.Some?;
    }
  }
}
