/**
 * The decisions of SecureTokenManager over a `World`: interactive setup, migration of tokens
 * left in shell start-up files, the priority chain of get_secure_token, and diagnose_token.
 *
 * Exceptions that leave these methods are the `Failure` of a `Result`: the user declining
 * setup (ValueError) and the console running out of input (EOFError).
 */
module TokenFlows {
  import opened Wrappers
  import opened Strings
  import opened TokenValidation
  import opened Prompts
  import opened LegacyTokens
  import opened TokenStore

  datatype Failure = Cancelled | InputEnded

  /** The world once every remaining line of input has been read. */
  function EndOfAnswers(w: World): World {
    w.(read := if w.read < |w.answers| then |w.answers| else w.read)
  }

  /** The answers that let a flow go on: `choice in ['y', 'yes']`. */
  predicate Yes(c: string) {
    c == "y" || c == "yes"
  }

  /**
   * The `while True` loop of _setup_new_token, reading from the world's input position: an
   * answer shorter than 30 characters, one the remote check refuses, or one that cannot be
   * stored sends the user round again.
   */
  function SetupLoop(env: Env, w: World): (r: (Result<string, Failure>, World))
    ensures r.1.shells == w.shells && r.1.answers == w.answers && r.1.outcomes == w.outcomes
    ensures r.0.Err? ==> r.0.error == InputEnded
    ensures r.0.Ok? ==> env.configWritable && |r.0.value| >= MinTokenLength && HoldsRecordFor(env, r.1.config, r.0.value)
    ensures r.0.Err? ==> r.1.config == w.config
    decreases |w.answers| - w.read
  {
    match Input(w.answers, w.read, true)
    case EndOfInput => (Err(InputEnded), EndOfAnswers(w))
    case Got(t, next) =>
      var w1 := w.(read := next);
      if |t| < MinTokenLength then SetupLoop(env, w1)
      else
        var (v, w2) := ValidateIn(w1, t, 3);
        if v.info.None? then SetupLoop(env, w2)
        else
          var (stored, w3) := Store(env, w2, t);
          if stored then (Ok(t), w3) else SetupLoop(env, w3)
  }

  /** _setup_new_token(): a yes/no question (default yes), then the loop. */
  function Setup(env: Env, w: World): (r: (Result<string, Failure>, World))
    ensures r.1.shells == w.shells && r.1.answers == w.answers && r.1.outcomes == w.outcomes
    ensures r.0.Ok? ==> env.configWritable && |r.0.value| >= MinTokenLength && HoldsRecordFor(env, r.1.config, r.0.value)
    ensures r.0.Err? ==> r.1.config == w.config
    ensures r.0 == Err(Cancelled) <==> Choice(w.answers, w.read, YesNo, "y").Got? && !Yes(Choice(w.answers, w.read, YesNo, "y").value)
  {
    match Choice(w.answers, w.read, YesNo, "y")
    case EndOfInput => (Err(InputEnded), EndOfAnswers(w))
    case Got(c, next) =>
      if !Yes(c) then (Err(Cancelled), w.(read := next)) else SetupLoop(env, w.(read := next))
  }

  /** A setup's outcome as _handle_migration's Optional[str]. */
  function Lifted(r: (Result<string, Failure>, World)): (Result<Option<string>, Failure>, World) {
    match r.0
    case Ok(t) => (Ok(Some(t)), r.1)
    case Err(f) => (Err(f), r.1)
  }

  /**
   * _setup_new_token() called inside _handle_migration's try: when it raises, the handler
   * calls it once more, and what that second call raises leaves the migration.
   */
  function SetupInTry(env: Env, w: World): (r: (Result<Option<string>, Failure>, World)) {
    var (first, w1) := Setup(env, w);
    if first.Ok? then (Ok(Some(first.value)), w1) else Lifted(Setup(env, w1))
  }

  /** The first of the found tokens from index `i` on that passes the remote check, in discovery order. */
  function SelectFrom(env: Env, w: World, legacy: seq<(string, string)>, i: nat): (r: (Option<string>, World))
    ensures SameButCalls(w, r.1)
    ensures r.0.Some? ==> |r.0.value| >= MinTokenLength && exists k :: i <= k < |legacy| && legacy[k].1 == r.0.value
    decreases |legacy| - i
  {
    if i >= |legacy| then (None, w)
    else
      var (v, w1) := ValidateIn(w, legacy[i].1, 3);
      if v.info.Some? then (Some(legacy[i].1), w1) else SelectFrom(env, w1, legacy, i + 1)
  }

  /** The world once the found tokens from index `i` up to `k` have each been validated in turn. */
  function TriedUpTo(w: World, legacy: seq<(string, string)>, i: nat, k: nat): World
    requires i <= k <= |legacy|
    decreases k - i
  {
    if i == k then w else TriedUpTo(ValidateIn(w, legacy[i].1, 3).1, legacy, i + 1, k)
  }

  /** The j-th found token is refused by the remote check, in the world left by the ones before it. */
  predicate RefusedAt(w: World, legacy: seq<(string, string)>, i: nat, j: nat)
    requires i <= j < |legacy|
  {
    ValidateIn(TriedUpTo(w, legacy, i, j), legacy[j].1, 3).0.info.None?
  }

  /** The k-th found token is the first from `i` on that validates. */
  predicate SelectedAt(w: World, legacy: seq<(string, string)>, i: nat, k: nat)
    requires i <= k < |legacy|
  {
    && ValidateIn(TriedUpTo(w, legacy, i, k), legacy[k].1, 3).0.info.Some?
    && forall j :: i <= j < k ==> RefusedAt(w, legacy, i, j)
  }

  /** Every found token from `i` on is refused. */
  predicate AllRefused(w: World, legacy: seq<(string, string)>, i: nat)
    requires i <= |legacy|
  {
    forall j :: i <= j < |legacy| ==> RefusedAt(w, legacy, i, j)
  }

  /** After a refused token, the later ones are tried in the world its validation left. */
  lemma RefusedShift(w: World, legacy: seq<(string, string)>, i: nat, j: nat)
    requires i < j < |legacy|
    ensures RefusedAt(w, legacy, i, j) == RefusedAt(ValidateIn(w, legacy[i].1, 3).1, legacy, i + 1, j)
  {
    assert TriedUpTo(w, legacy, i, j) == TriedUpTo(ValidateIn(w, legacy[i].1, 3).1, legacy, i + 1, j);
  }

  /** One step of the selection: a refused token passes the search on to the next one. */
  lemma SelectFromStep(env: Env, w: World, legacy: seq<(string, string)>, i: nat)
    requires i < |legacy|
    ensures var w1 := ValidateIn(w, legacy[i].1, 3).1;
      SelectFrom(env, w, legacy, i) ==
        if RefusedAt(w, legacy, i, i) then SelectFrom(env, w1, legacy, i + 1) else (Some(legacy[i].1), w1)
  {
    assert TriedUpTo(w, legacy, i, i) == w;
  }

  /**
   * The selection stops at the first found token that validates: every earlier one was refused,
   * and no token is selected exactly when all of them were refused.
   */
  lemma {:induction false} SelectFromFirstValid(env: Env, w: World, legacy: seq<(string, string)>, i: nat)
    requires i <= |legacy|
    ensures var r := SelectFrom(env, w, legacy, i);
      r.0.Some? ==>
        exists k :: i <= k < |legacy| && SelectedAt(w, legacy, i, k) && r.0.value == legacy[k].1 &&
                    r.1 == ValidateIn(TriedUpTo(w, legacy, i, k), legacy[k].1, 3).1
    ensures SelectFrom(env, w, legacy, i).0.None? <==> AllRefused(w, legacy, i)
    decreases |legacy| - i
  {
    if i < |legacy| {
      var w1 := ValidateIn(w, legacy[i].1, 3).1;
      SelectFromStep(env, w, legacy, i);
      if !RefusedAt(w, legacy, i, i) {
        assert SelectedAt(w, legacy, i, i);
      } else {
        SelectFromFirstValid(env, w1, legacy, i + 1);
        if AllRefused(w1, legacy, i + 1) {
          forall j | i < j < |legacy|
            ensures RefusedAt(w, legacy, i, j)
          {
            RefusedShift(w, legacy, i, j);
          }
        }
        if AllRefused(w, legacy, i) {
          var next := i + 1;
          forall j | next <= j < |legacy|
            ensures RefusedAt(w1, legacy, next, j)
          {
            RefusedShift(w, legacy, i, j);
          }
        }
        var r := SelectFrom(env, w1, legacy, i + 1);
        if r.0.Some? {
          var k :| i + 1 <= k < |legacy| && SelectedAt(w1, legacy, i + 1, k) && r.0.value == legacy[k].1 &&
                   r.1 == ValidateIn(TriedUpTo(w1, legacy, i + 1, k), legacy[k].1, 3).1;
          assert TriedUpTo(w, legacy, i, k) == TriedUpTo(w1, legacy, i + 1, k);
          forall j | i < j < k
            ensures RefusedAt(w, legacy, i, j)
          {
            RefusedShift(w, legacy, i, j);
          }
          assert SelectedAt(w, legacy, i, k);
        }
      }
    }
  }

  /**
   * _handle_migration(legacy): asks first (default yes); on yes the first valid found token is
   * stored and only then are the shell files cleaned. Whatever goes wrong ends in setup.
   */
  function Migration(env: Env, w: World, legacy: seq<(string, string)>): (r: (Result<Option<string>, Failure>, World))
  {
    match Choice(w.answers, w.read, YesNo, "y")
    case EndOfInput => Lifted(Setup(env, EndOfAnswers(w)))
    case Got(c, next) =>
      var w1 := w.(read := next);
      if !Yes(c) then (Ok(None), w1)
      else
        var (selected, w2) := SelectFrom(env, w1, legacy, 0);
        match selected
        case None => SetupInTry(env, w2)
        case Some(t) =>
          var (stored, w3) := Store(env, w2, t);
          if stored then (Ok(Some(t)), w3.(shells := Cleanup(w3.shells, legacy).0))
          else SetupInTry(env, w3)
  }

  /** get_secure_token() once the stored token is out of the way: migration, then setup. */
  function WithoutStoredToken(env: Env, w: World): (r: (Result<string, Failure>, World)) {
    var legacy := Detect(w.shells, env.shellFiles);
    if legacy == [] then Setup(env, w)
    else
      var (migrated, w1) := Migration(env, w, legacy);
      match migrated
      case Err(f) => (Err(f), w1)
      case Ok(None) => Setup(env, w1)
      case Ok(Some(t)) => if t != "" then (Ok(t), w1) else Setup(env, w1)
  }

  /**
   * get_secure_token(): the stored token when it validates; otherwise the stored file is removed
   * and the shell files are looked at before setup.
   */
  function GetSecureToken(env: Env, w: World): (r: (Result<string, Failure>, World)) {
    var (stored, w1) := Load(env, w);
    if stored.Some? && stored.value != "" then
      var (v, w2) := ValidateIn(w1, stored.value, 3);
      if v.info.Some? then (Ok(stored.value), w2)
      else WithoutStoredToken(env, Remove(env, w2))
    else WithoutStoredToken(env, w1)
  }

  // ----- diagnose_token -----

  datatype TokenShape = ThreeParts | OtherParts(parts: nat) | NoPipes

  /** The format check of diagnose_token: how many '|'-separated parts the token has. */
  function Shape(t: string): (r: TokenShape)
    ensures r == NoPipes <==> '|' !in t
    ensures r.OtherParts? ==> r.parts != 3 && r.parts >= 2
  {
    if '|' in t then
      var parts := Split(t, '|');
      if |parts| == 3 then ThreeParts else OtherParts(|parts|)
    else NoPipes
  }

  /** A token has the expected three parts exactly when it holds two separators. */
  lemma ShapeByCount(t: string)
    ensures Shape(t) == ThreeParts <==> CountChar(t, '|') == 2
    ensures Shape(t).OtherParts? ==> Shape(t).parts == CountChar(t, '|') + 1
  {
    if CountChar(t, '|') == 2 && '|' !in t {
      NoCharCount(t, '|');
    }
  }

  /**
   * diagnose_token(token): DNS, then HTTPS, then the token given (or else the stored one),
   * which must have at least 30 characters, then a single validation attempt.
   */
  function Diagnose(env: Env, w: World, token: Option<string>, dnsResolves: bool, httpsReachable: bool): (r: (bool, World))
    ensures r.1.sleeps == w.sleeps
    ensures r.1.shells == w.shells && r.1.answers == w.answers && r.1.read == w.read
    ensures r.1.called <= w.called + 1
    ensures r.0 ==> dnsResolves && httpsReachable && AcceptedAt(w.outcomes, w.called, 0)
  {
    if !dnsResolves || !httpsReachable then (false, w)
    else
      var (test, w1) := if token.Some? && token.value != "" then (token, w) else Load(env, w);
      if test.None? || test.value == "" then (false, w1)
      else if |test.value| < MinTokenLength then (false, w1)
      else
        SingleAttemptNeverWaits(test.value, w1.outcomes, w1.called);
        var (v, w2) := ValidateIn(w1, test.value, 1);
        ValidateSucceedsIff(test.value, 1, w1.outcomes, w1.called);
        (v.info.Some?, w2)
  }

  // ----- properties of the flows -----

  /** A setup run inside the migration's try keeps the promises of setup. */
  lemma SetupInTryFacts(env: Env, w: World)
    ensures var r := SetupInTry(env, w);
      && r.0 != Ok(None)
      && r.1.shells == w.shells
      && (r.0.Ok? ==> env.configWritable && |r.0.value.value| >= MinTokenLength && HoldsRecordFor(env, r.1.config, r.0.value.value))
  {
  }

  /** The migration answers None exactly when the user declines, and then only the answer is consumed. */
  lemma MigrationDeclined(env: Env, w: World, legacy: seq<(string, string)>)
    ensures Migration(env, w, legacy).0 == Ok(None) <==>
      Choice(w.answers, w.read, YesNo, "y").Got? && !Yes(Choice(w.answers, w.read, YesNo, "y").value)
    ensures Migration(env, w, legacy).0 == Ok(None) ==>
      Migration(env, w, legacy).1 == w.(read := Choice(w.answers, w.read, YesNo, "y").next)
  {
    match Choice(w.answers, w.read, YesNo, "y")
    case EndOfInput =>
    case Got(c, next) =>
      if Yes(c) {
        var (selected, w2) := SelectFrom(env, w.(read := next), legacy, 0);
        if selected.None? {
          SetupInTryFacts(env, w2);
        } else {
          SetupInTryFacts(env, Store(env, w2, selected.value).1);
        }
      }
  }

  /**
   * The shell files change only after the selected token was stored: a migration that touched
   * them answers that token and leaves its record in config.json.
   */
  lemma CleanupOnlyAfterStore(env: Env, w: World, legacy: seq<(string, string)>)
    requires Migration(env, w, legacy).1.shells != w.shells
    ensures Migration(env, w, legacy).0.Ok? && Migration(env, w, legacy).0.value.Some?
    ensures var t := Migration(env, w, legacy).0.value.value;
      && (exists k :: 0 <= k < |legacy| && legacy[k].1 == t)
      && HoldsRecordFor(env, Migration(env, w, legacy).1.config, t)
  {
    match Choice(w.answers, w.read, YesNo, "y")
    case EndOfInput =>
    case Got(c, next) =>
      var (selected, w2) := SelectFrom(env, w.(read := next), legacy, 0);
      if selected.None? {
        SetupInTryFacts(env, w2);
      } else {
        var (stored, w3) := Store(env, w2, selected.value);
        if !stored {
          SetupInTryFacts(env, w3);
        }
      }
  }

  /** Whatever the migration answers is a stored token of at least 30 characters. */
  lemma MigrationStores(env: Env, w: World, legacy: seq<(string, string)>)
    requires Migration(env, w, legacy).0.Ok? && Migration(env, w, legacy).0.value.Some?
    ensures var t := Migration(env, w, legacy).0.value.value;
      env.configWritable && |t| >= MinTokenLength && HoldsRecordFor(env, Migration(env, w, legacy).1.config, t)
  {
    match Choice(w.answers, w.read, YesNo, "y")
    case EndOfInput =>
    case Got(c, next) =>
      var (selected, w2) := SelectFrom(env, w.(read := next), legacy, 0);
      if selected.None? {
        SetupInTryFacts(env, w2);
      } else {
        var (stored, w3) := Store(env, w2, selected.value);
        if !stored {
          SetupInTryFacts(env, w3);
        }
      }
  }

  /** A stored token that validates is returned at once: no shell file is read or changed and nothing is asked. */
  lemma StoredTokenFirst(env: Env, w: World)
    requires Load(env, w).0.Some? && Load(env, w).0.value != ""
    requires Validate(Load(env, w).0.value, 3, w.outcomes, w.called).info.Some?
    ensures GetSecureToken(env, w).0 == Ok(Load(env, w).0.value)
    ensures GetSecureToken(env, w).1.shells == w.shells && GetSecureToken(env, w).1.read == w.read
  {
  }

  /** A stored token that fails validation is deleted before the shell files are looked at. */
  lemma InvalidStoredRemovedFirst(env: Env, w: World)
    requires Load(env, w).0.Some? && Load(env, w).0.value != ""
    requires Validate(Load(env, w).0.value, 3, w.outcomes, w.called).info.None?
    ensures var w2 := ValidateIn(Load(env, w).1, Load(env, w).0.value, 3).1;
      && GetSecureToken(env, w) == WithoutStoredToken(env, Remove(env, w2))
      && (env.configWritable ==> Remove(env, w2).config == NoFile)
  {
  }

  /** Setup is reached only when the migration yields no token. */
  lemma SetupOnlyWithoutMigratedToken(env: Env, w: World)
    requires Detect(w.shells, env.shellFiles) != []
    requires Migration(env, w, Detect(w.shells, env.shellFiles)).0.Ok?
    requires Migration(env, w, Detect(w.shells, env.shellFiles)).0.value.Some?
    ensures WithoutStoredToken(env, w) == (Ok(Migration(env, w, Detect(w.shells, env.shellFiles)).0.value.value),
                                            Migration(env, w, Detect(w.shells, env.shellFiles)).1)
  {
    MigrationStores(env, w, Detect(w.shells, env.shellFiles));
  }

  /** Without a writable config file no token is ever obtained: setup asks until input ends or the user gives up. */
  lemma ReadOnlyConfigNeverSucceeds(env: Env, w: World)
    requires !env.configWritable
    ensures GetSecureToken(env, w).0.Err?
  {
    var (stored, w1) := Load(env, w);
    assert stored.None? || stored.value == "";
    var legacy := Detect(w1.shells, env.shellFiles);
    if legacy != [] {
      var (migrated, w2) := Migration(env, w1, legacy);
      if migrated.Ok? && migrated.value.Some? {
        MigrationStores(env, w1, legacy);
      }
    }
  }

  /**
   * The token handed back is there for the next run: with a cipher that undoes its encryption
   * of it, loading from the world left behind gives the same token.
   */
  lemma TokenIsKept(env: Env, w: World)
    requires GetSecureToken(env, w).0.Ok?
    requires SoundFor(env, GetSecureToken(env, w).0.value)
    ensures Load(env, GetSecureToken(env, w).1).0 == Some(GetSecureToken(env, w).0.value)
  {
    var t := GetSecureToken(env, w).0.value;
    var (stored, w1) := Load(env, w);
    if stored.Some? && stored.value != "" && ValidateIn(w1, stored.value, 3).0.info.Some? {
      LoadAgain(env, w);
      var w2 := ValidateIn(w1, stored.value, 3).1;
      assert Load(env, w2) == Load(env, w1).(1 := Load(env, w1).1.(called := w2.called, sleeps := w2.sleeps));
    } else {
      var w3 := if stored.Some? && stored.value != "" then Remove(env, ValidateIn(w1, stored.value, 3).1) else w1;
      assert GetSecureToken(env, w) == WithoutStoredToken(env, w3);
      var legacy := Detect(w3.shells, env.shellFiles);
      if legacy != [] && Migration(env, w3, legacy).0.Ok? && Migration(env, w3, legacy).0.value.Some? {
        MigrationStores(env, w3, legacy);
      }
      RecordLoads(env, GetSecureToken(env, w).1, t);
    }
  }

  /** A diagnosis passes exactly when both network checks pass and a token of 30 or more characters is accepted on the first call. */
  lemma DiagnosePassesIff(env: Env, w: World, token: Option<string>, dnsResolves: bool, httpsReachable: bool)
    requires token.Some? && token.value != ""
    ensures Diagnose(env, w, token, dnsResolves, httpsReachable).0 <==>
      dnsResolves && httpsReachable && |token.value| >= MinTokenLength && AcceptedAt(w.outcomes, w.called, 0)
    ensures Diagnose(env, w, token, dnsResolves, httpsReachable).1.config == w.config
  {
    if dnsResolves && httpsReachable && |token.value| >= MinTokenLength {
      ValidateSucceedsIff(token.value, 1, w.outcomes, w.called);
    }
  }
}
