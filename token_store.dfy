/**
 * The encrypted token store of SecureTokenManager: the JSON record in config.json, how it is
 * written by store_token_securely, read by _load_secure_token and deleted by
 * _remove_secure_token, and where _get_config_directory puts it.
 *
 * The outside world the token manager sees is a `World` value: the parsed config file, the
 * shell start-up files, the remote call outcomes still to come and the position reached in
 * them, the lines the user will type and the position reached in them, and the waits slept so
 * far. What cannot be seen from Python (the cipher, the clock, whether the config directory
 * may be written) is an `Env`.
 */
module TokenStore {
  import opened Wrappers
  import opened Strings
  import opened Files
  import opened TokenValidation

  const ConfigVersion := "1.0"
  const ConfigDirName := "cdp-runbooker"
  const ConfigFileName := "config.json"

  /** A JSON value in the record: a string, or anything else with its Python truth value. */
  datatype JsonValue = JStr(s: string) | JOther(truthy: bool)

  predicate Truthy(v: JsonValue) {
    match v
    case JStr(s) => s != ""
    case JOther(t) => t
  }

  /** config.json: absent, present but not a JSON object, or a JSON object. */
  datatype ConfigFile = NoFile | Unreadable | Record(fields: map<string, JsonValue>)

  /**
   * What the environment decides: the cipher (Fernet under a machine-derived key, or base64),
   * the current UTC time in ISO format, whether config.json can be written or deleted, and the
   * shell start-up files that are looked at.
   */
  datatype Env = Env(
    encrypt: string -> string,
    decrypt: string -> Option<string>,
    now: string,
    configWritable: bool,
    shellFiles: seq<string>)

  datatype World = World(
    config: ConfigFile,
    shells: FileSystem,
    outcomes: seq<Outcome>,
    called: nat,
    answers: seq<string>,
    read: nat,
    sleeps: seq<nat>)

  /** The cipher gets `t` back from what it stores for `t`, and stores something truthy. */
  predicate SoundFor(env: Env, t: string) {
    env.encrypt(t) != "" && env.decrypt(env.encrypt(t)) == Some(t)
  }

  /** Only the remote calls made and the waits slept differ between two worlds. */
  predicate SameButCalls(w: World, w': World) {
    w'.config == w.config && w'.shells == w.shells && w'.outcomes == w.outcomes &&
    w'.answers == w.answers && w'.read == w.read
  }

  /**
   * _validate_token(token, max) against the world: the calls it makes consume outcomes and its
   * waits are added to the sleep log.
   */
  function ValidateIn(w: World, token: string, max: nat): (r: (Validation, World))
    ensures r.0 == Validate(token, max, w.outcomes, w.called)
    ensures SameButCalls(w, r.1)
    ensures r.1.called == w.called + r.0.attempts && r.1.sleeps == w.sleeps + r.0.waits
  {
    var v := Validate(token, max, w.outcomes, w.called);
    (v, w.(called := w.called + v.attempts, sleeps := w.sleeps + v.waits))
  }

  /** The user_name field: the user's name, "Unknown" when the reply has none. */
  function UserName(info: map<string, string>): string {
    if "name" in info then info["name"] else "Unknown"
  }

  /** The JSON object store_token_securely writes. */
  function StoredRecord(env: Env, token: string, info: map<string, string>): map<string, JsonValue> {
    map[
      "version" := JStr(ConfigVersion),
      "encrypted_token" := JStr(env.encrypt(token)),
      "created_at" := JStr(env.now),
      "last_used" := JStr(env.now),
      "user_name" := JStr(UserName(info))]
  }

  /**
   * The record has exactly the five fields; both timestamps are the clock's time, and the user
   * name is the one the validation reply gave, "Unknown" when it gave none.
   */
  lemma StoredRecordFields(env: Env, token: string, info: map<string, string>)
    ensures var f := StoredRecord(env, token, info);
      && f.Keys == {"version", "encrypted_token", "created_at", "last_used", "user_name"}
      && f["version"] == JStr("1.0") && f["encrypted_token"] == JStr(env.encrypt(token))
      && f["created_at"] == f["last_used"] == JStr(env.now)
      && ("name" in info ==> f["user_name"] == JStr(info["name"]))
      && ("name" !in info ==> f["user_name"] == JStr("Unknown"))
  {
  }

  /** The config file holds version "1.0" and the encryption of `t`. */
  predicate HoldsRecordFor(env: Env, c: ConfigFile, t: string) {
    && c.Record?
    && "version" in c.fields && c.fields["version"] == JStr(ConfigVersion)
    && "encrypted_token" in c.fields && c.fields["encrypted_token"] == JStr(env.encrypt(t))
  }

  /**
   * store_token_securely(token): the token is validated (three attempts), then its record is
   * written; an invalid token or a failed write gives False.
   */
  function Store(env: Env, w: World, token: string): (r: (bool, World))
    ensures r.1.shells == w.shells && r.1.answers == w.answers && r.1.read == w.read
    ensures r.1.outcomes == w.outcomes
    ensures r.0 <==> env.configWritable && Validate(token, 3, w.outcomes, w.called).info.Some?
    ensures r.0 ==> HoldsRecordFor(env, r.1.config, token)
    ensures r.0 ==> r.1.config == Record(StoredRecord(env, token, Validate(token, 3, w.outcomes, w.called).info.value))
    ensures !r.0 ==> r.1.config == w.config
  {
    var (v, w1) := ValidateIn(w, token, 3);
    if v.info.None? || !env.configWritable then (false, w1)
    else (true, w1.(config := Record(StoredRecord(env, token, v.info.value))))
  }

  /** The token stored in a record that passes the version and presence checks, decrypted. */
  function Decrypted(env: Env, fields: map<string, JsonValue>): Option<string> {
    if "version" !in fields || fields["version"] != JStr(ConfigVersion) then None
    else if "encrypted_token" !in fields || !Truthy(fields["encrypted_token"]) then None
    else if !fields["encrypted_token"].JStr? then None
    else env.decrypt(fields["encrypted_token"].s)
  }

  /**
   * _load_secure_token(): the decrypted token of a well-formed record. When a token comes back
   * the record is written again with a fresh last_used; when that write fails the exception
   * handler answers None.
   */
  function Load(env: Env, w: World): (r: (Option<string>, World))
    ensures SameButCalls(w, r.1) || (w.config.Record? && r.1 == w.(config := Record(w.config.fields["last_used" := JStr(env.now)])))
    ensures r.1.called == w.called && r.1.sleeps == w.sleeps
  {
    match w.config
    case NoFile => (None, w)
    case Unreadable => (None, w)
    case Record(fields) =>
      match Decrypted(env, fields)
      case None => (None, w)
      case Some(t) =>
        if t == "" then (Some(""), w)
        else if !env.configWritable then (None, w)
        else (Some(t), w.(config := Record(fields["last_used" := JStr(env.now)])))
  }

  /** _remove_secure_token(): the file is deleted when it exists and can be deleted. */
  function Remove(env: Env, w: World): (w': World)
    ensures w'.shells == w.shells && w'.outcomes == w.outcomes && w'.called == w.called
    ensures w'.answers == w.answers && w'.read == w.read && w'.sleeps == w.sleeps
    ensures env.configWritable ==> w'.config == NoFile
    ensures !env.configWritable ==> w'.config == w.config
  {
    if w.config != NoFile && env.configWritable then w.(config := NoFile) else w
  }

  // ----- properties of the store -----

  /** A record with another version, or without a truthy encrypted_token, yields nothing and is left alone. */
  lemma LoadRejectsRecord(env: Env, w: World)
    requires w.config.Record?
    requires var f := w.config.fields;
      || "version" !in f || f["version"] != JStr(ConfigVersion)
      || "encrypted_token" !in f || !Truthy(f["encrypted_token"])
    ensures Load(env, w) == (None, w)
  {
  }

  /** The record is rewritten only when decryption yields a token, and then only last_used changes. */
  lemma LoadRewritesOnlyOnToken(env: Env, w: World)
    requires Load(env, w).1 != w
    ensures w.config.Record?
    ensures Decrypted(env, w.config.fields).Some? && Decrypted(env, w.config.fields).value != ""
    ensures Load(env, w) == (Decrypted(env, w.config.fields), w.(config := Record(w.config.fields["last_used" := JStr(env.now)])))
  {
  }

  /** What was stored is what is loaded, for a cipher whose decryption undoes its encryption. */
  lemma StoreThenLoad(env: Env, w: World, t: string)
    requires SoundFor(env, t)
    requires Store(env, w, t).0
    ensures Load(env, Store(env, w, t).1).0 == Some(t)
  {
    var w1 := Store(env, w, t).1;
    assert Validate(t, 3, w.outcomes, w.called).info.Some?;
    assert |t| >= MinTokenLength;
    RecordLoads(env, w1, t);
  }

  /** A record holding the encryption of a non-empty `t` loads as `t`, and loading it again still does. */
  lemma RecordLoads(env: Env, w: World, t: string)
    requires SoundFor(env, t) && t != "" && env.configWritable
    requires HoldsRecordFor(env, w.config, t)
    ensures Load(env, w).0 == Some(t)
    ensures HoldsRecordFor(env, Load(env, w).1.config, t)
  {
    assert Decrypted(env, w.config.fields) == Some(t);
  }

  /** A loaded token is still there to be loaded again once last_used has been rewritten. */
  lemma LoadAgain(env: Env, w: World)
    requires Load(env, w).0.Some? && Load(env, w).0.value != ""
    ensures Load(env, Load(env, w).1).0 == Load(env, w).0
  {
    var f := w.config.fields;
    assert Decrypted(env, f["last_used" := JStr(env.now)]) == Decrypted(env, f);
  }

  /** With a config file that cannot be written, no token is ever stored and none is loaded. */
  lemma ReadOnlyStore(env: Env, w: World)
    requires !env.configWritable
    ensures Load(env, w).0 == None || Load(env, w).0 == Some("")
    ensures forall t :: !Store(env, w, t).0
  {
  }

  /** A stored token was accepted by the remote check first. */
  lemma StoreValidates(env: Env, w: World, t: string)
    requires Store(env, w, t).0
    ensures |t| >= MinTokenLength
    ensures exists k :: 0 <= k < 3 && AcceptedAt(w.outcomes, w.called, k) &&
                       forall j :: 0 <= j < k ==> RetriedAt(w.outcomes, w.called, j)
  {
    ValidateSucceedsIff(t, 3, w.outcomes, w.called);
  }

  // ----- _get_config_directory -----

  /**
   * The configuration directory as a base directory followed by the names below it: APPDATA
   * (else ~/AppData/Roaming) on Windows, XDG_CONFIG_HOME (else ~/.config) elsewhere, and in
   * every case a final "cdp-runbooker".
   */
  function ConfigDirectory(system: string, environ: map<string, string>, home: string): (r: (string, seq<string>))
    ensures |r.1| >= 1 && r.1[|r.1| - 1] == ConfigDirName
    ensures Lower(system) == "windows" && "APPDATA" in environ && environ["APPDATA"] != "" ==>
      r == (environ["APPDATA"], [ConfigDirName])
    ensures Lower(system) != "windows" && "XDG_CONFIG_HOME" in environ && environ["XDG_CONFIG_HOME"] != "" ==>
      r == (environ["XDG_CONFIG_HOME"], [ConfigDirName])
  {
    if Lower(system) == "windows" then
      if "APPDATA" in environ && environ["APPDATA"] != "" then (environ["APPDATA"], [ConfigDirName])
      else (home, ["AppData", "Roaming", ConfigDirName])
    else
      if "XDG_CONFIG_HOME" in environ && environ["XDG_CONFIG_HOME"] != "" then (environ["XDG_CONFIG_HOME"], [ConfigDirName])
      else (home, [".config", ConfigDirName])
  }

  /** Without the variable, the directory lies under the home directory, hidden on Unix. */
  lemma ConfigDirectoryFallback(system: string, environ: map<string, string>, home: string)
    ensures Lower(system) == "windows" && ("APPDATA" !in environ || environ["APPDATA"] == "") ==>
      ConfigDirectory(system, environ, home) == (home, ["AppData", "Roaming", ConfigDirName])
    ensures Lower(system) != "windows" && ("XDG_CONFIG_HOME" !in environ || environ["XDG_CONFIG_HOME"] == "") ==>
      ConfigDirectory(system, environ, home) == (home, [".config", ConfigDirName])
  {
  }
}
