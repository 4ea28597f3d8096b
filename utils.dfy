/**
 * The static helpers of Utils: the required-key check and the translation of
 * environment variables into client configuration entries.
 */
module Utils {
  import opened Outcomes
  import opened ClientConfigs
  import opened JavaUtil

  // ===================================================================
  // preInitChecks
  // ===================================================================

  /**
   * What preInitChecks does, as written: `get` of an absent key returns
   * null and calling `equals` on it throws, so the check stops with a
   * NullPointerException at the first absent key; a present value is a
   * non-null String, which never `equals(null)`.
   */
  function PreInitResult(entries: map<string, string>, required: seq<string>): (r: Outcome)
    ensures r.Pass? <==> forall j :: 0 <= j < |required| ==> required[j] in entries
    ensures r.Fail? ==> r.error.NullPointer? && r.error.name in required && r.error.name !in entries
  {
    if required == [] then Pass
    else if required[0] !in entries then Fail(NullPointer(required[0]))
    else PreInitResult(entries, required[1..])
  }

  /** The check fails exactly at the first absent key, in list order. */
  lemma {:induction false} PreInitFailsAtFirstAbsent(entries: map<string, string>, required: seq<string>, i: nat)
    requires i < |required| && required[i] !in entries
    requires forall j :: 0 <= j < i ==> required[j] in entries
    ensures PreInitResult(entries, required) == Fail(NullPointer(required[i]))
  {
    if i > 0 {
      assert required[0] in entries;
      PreInitFailsAtFirstAbsent(entries, required[1..], i - 1);
    }
  }

  /** The "Missing required properties" exception is never raised. */
  lemma PreInitNeverReportsMissing(entries: map<string, string>, required: seq<string>)
    ensures !(PreInitResult(entries, required).Fail? && PreInitResult(entries, required).error.MissingRequired?)
  {
  }

  method PreInitChecks(configuredProps: Properties, requiredProps: seq<string>) returns (outcome: Outcome)
    ensures outcome == PreInitResult(configuredProps.entries, requiredProps)
  {
    var missingProps: seq<string> := [];
    for i := 0 to |requiredProps|
      invariant PreInitResult(configuredProps.entries, requiredProps[i..])
             == PreInitResult(configuredProps.entries, requiredProps)
    {
      var prop := requiredProps[i];
      var value := configuredProps.Get(prop);
      if value.None? {
        // equals is called on the null that get returned
        return Fail(NullPointer(prop));
      }
      // value.value is a non-null String, so equals(null) is false and
      // nothing is added to missingProps
      assert requiredProps[i..][1..] == requiredProps[i + 1..];
    }
    if |missingProps| > 0 {
      return Fail(MissingRequired(missingProps));
    }
    return Pass;
  }

  // The check its documentation describes: collect every absent key.

  /** The required keys that are absent, in list order. */
  function MissingKeys(entries: map<string, string>, required: seq<string>): seq<string> {
    if required == [] then []
    else (if required[0] !in entries then [required[0]] else []) + MissingKeys(entries, required[1..])
  }

  /** A key is listed exactly when it is required and absent. */
  lemma {:induction false} MissingKeysExact(entries: map<string, string>, required: seq<string>, x: string)
    ensures x in MissingKeys(entries, required) <==> x in required && x !in entries
  {
    if required != [] {
      MissingKeysExact(entries, required[1..], x);
      assert x in required <==> x == required[0] || x in required[1..];
    }
  }

  /** As written, the check names the first of the missing keys, and only as a null dereference. */
  lemma {:induction false} PreInitNamesFirstMissing(entries: map<string, string>, required: seq<string>)
    ensures PreInitResult(entries, required)
         == if MissingKeys(entries, required) == [] then Pass
            else Fail(NullPointer(MissingKeys(entries, required)[0]))
  {
    if required != [] && required[0] in entries {
      PreInitNamesFirstMissing(entries, required[1..]);
    }
  }

  /** The corrected check: fail with the full list of missing keys, or return normally. */
  method CheckRequired(configuredProps: Properties, requiredProps: seq<string>) returns (outcome: Outcome)
    ensures outcome.Pass? <==> forall j :: 0 <= j < |requiredProps| ==> requiredProps[j] in configuredProps.entries
    ensures outcome.Fail? ==> outcome.error == MissingRequired(MissingKeys(configuredProps.entries, requiredProps))
  {
    ghost var entries := configuredProps.entries;
    var missingProps: seq<string> := [];
    for i := 0 to |requiredProps|
      invariant missingProps + MissingKeys(entries, requiredProps[i..]) == MissingKeys(entries, requiredProps)
    {
      var prop := requiredProps[i];
      ghost var rest := requiredProps[i + 1..];
      assert requiredProps[i..] == [prop] + rest;
      assert MissingKeys(entries, requiredProps[i..])
          == (if prop !in entries then [prop] else []) + MissingKeys(entries, rest);
      ghost var before := missingProps;
      if configuredProps.Get(prop).None? {
        missingProps := missingProps + [prop];
      }
      assert missingProps == before + (if prop !in entries then [prop] else []);
      assert missingProps + MissingKeys(entries, rest)
          == before + ((if prop !in entries then [prop] else []) + MissingKeys(entries, rest));
    }
    assert requiredProps[|requiredProps|..] == [];
    MissingKeysEmpty(entries, requiredProps);
    if |missingProps| > 0 {
      return Fail(MissingRequired(missingProps));
    }
    return Pass;
  }

  /** No key is missing exactly when every required key is present. */
  lemma MissingKeysEmpty(entries: map<string, string>, required: seq<string>)
    ensures MissingKeys(entries, required) == [] <==> forall j :: 0 <= j < |required| ==> required[j] in entries
  {
    if MissingKeys(entries, required) != [] {
      var x := MissingKeys(entries, required)[0];
      MissingKeysExact(entries, required, x);
    } else {
      forall j | 0 <= j < |required| ensures required[j] in entries {
        MissingKeysExact(entries, required, required[j]);
      }
    }
  }

  // ===================================================================
  // addPropsFromEnv
  // ===================================================================

  /** A Java String reference: None is null. */
  type JString = Option<string>

  /** System.getenv: null for an unset variable. */
  function Getenv(env: map<string, string>, name: string): JString {
    if name in env then Some(env[name]) else None
  }

  /** String concatenation renders null as "null". */
  function Str(s: JString): string {
    match s
    case None => "null"
    case Some(v) => v
  }

  /** The pieces of the JAAS line written under the SASL JAAS key (three spaces in two places). */
  const JaasHead := "org.apache.kafka.common.security.plain.PlainLoginModule   required username='"
  const JaasMiddle := "'   password='"
  const JaasTail := "';"

  function JaasConfig(key: string, secret: string): string {
    JaasHead + key + JaasMiddle + secret + JaasTail
  }

  /** The four local credential buffers of addPropsFromEnv. */
  datatype Slot = KafkaKey | KafkaSecret | SchemaRegistryKey | SchemaRegistrySecret

  datatype Credentials = Credentials(kafkaKey: JString, kafkaSecret: JString, srKey: JString, srSecret: JString)
  {
    function Get(s: Slot): JString {
      match s
      case KafkaKey => kafkaKey
      case KafkaSecret => kafkaSecret
      case SchemaRegistryKey => srKey
      case SchemaRegistrySecret => srSecret
    }

    function Set(s: Slot, v: JString): (c: Credentials)
      ensures c.Get(s) == v
      ensures forall t :: t != s ==> c.Get(t) == Get(t)
    {
      match s
      case KafkaKey => this.(kafkaKey := v)
      case KafkaSecret => this.(kafkaSecret := v)
      case SchemaRegistryKey => this.(srKey := v)
      case SchemaRegistrySecret => this.(srSecret := v)
    }
  }

  /** Every buffer starts as the empty string. */
  const Initial := Credentials(Some(""), Some(""), Some(""), Some(""))

  /** The environment name that fills a buffer. */
  function SlotName(s: Slot): string {
    match s
    case KafkaKey => "KAFKA_KEY"
    case KafkaSecret => "KAFKA_SECRET"
    case SchemaRegistryKey => "SCHEMA_REGISTRY_KEY"
    case SchemaRegistrySecret => "SCHEMA_REGISTRY_SECRET"
  }

  /** What one arm of the switch does with the requested name. */
  datatype Effect =
    | Write(target: Target)                          // props.put(target, getenv(name)); break
    | Buffer(slot: Slot)                             // slot = getenv(name); break
    | BufferThenWrite(slot: Slot, target: Target)    // slot = getenv(name), falling into a writing arm
    | BufferThenReject(slot: Slot)                   // slot = getenv(name), falling into default
    | Reject                                         // default: unsupported name
  {
    /** The buffer the arm assigns, if any. */
    function Fills(): Option<Slot> {
      match this
      case Buffer(s) => Some(s)
      case BufferThenWrite(s, _) => Some(s)
      case BufferThenReject(s) => Some(s)
      case _ => None
    }

    /** The key the arm puts the environment value under, if any. */
    function Puts(): Option<Target> {
      match this
      case Write(t) => Some(t)
      case BufferThenWrite(_, t) => Some(t)
      case _ => None
    }

    /** The arm ends in default's exception. */
    predicate Rejects() {
      BufferThenReject? || Reject?
    }
  }

  /** The switch as the source has it, and the switch with the two missing breaks restored. */
  datatype Table = AsWritten | Intended

  function Dispatch(t: Table, name: string): Effect {
    match name
    case "BOOTSTRAP_SERVERS" => Write(BootstrapServers)
    case "KAFKA_KEY" => Buffer(KafkaKey)
    case "KAFKA_SECRET" =>
      if t == AsWritten then BufferThenWrite(KafkaSecret, SchemaRegistryUrl) else Buffer(KafkaSecret)
    case "SCHEMA_REGISTRY_URL" => Write(SchemaRegistryUrl)
    case "SCHEMA_REGISTRY_KEY" => Buffer(SchemaRegistryKey)
    case "SCHEMA_REGISTRY_SECRET" =>
      if t == AsWritten then BufferThenReject(SchemaRegistrySecret) else Buffer(SchemaRegistrySecret)
    case _ => Reject
  }

  /** The configuration entries, the buffers and how the loop ended so far. */
  datatype Progress = Progress(entries: map<string, string>, creds: Credentials, outcome: Outcome)

  /** props.put(key, getenv(name)); Hashtable.put throws on a null value, before storing anything. */
  function PutEnv(entries: map<string, string>, creds: Credentials, key: string, name: string,
                  env: map<string, string>): Progress
  {
    match Getenv(env, name)
    case None => Progress(entries, creds, Fail(NullPointer(name)))
    case Some(v) => Progress(entries[key := v], creds, Pass)
  }

  function Apply(effect: Effect, entries: map<string, string>, creds: Credentials, name: string,
                 env: map<string, string>, keys: ClientKeys): Progress
  {
    match effect
    case Write(target) => PutEnv(entries, creds, keys.KeyOf(target), name, env)
    case Buffer(slot) => Progress(entries, creds.Set(slot, Getenv(env, name)), Pass)
    case BufferThenWrite(slot, target) =>
      PutEnv(entries, creds.Set(slot, Getenv(env, name)), keys.KeyOf(target), name, env)
    case BufferThenReject(slot) =>
      Progress(entries, creds.Set(slot, Getenv(env, name)), Fail(UnsupportedConfig(name)))
    case Reject => Progress(entries, creds, Fail(UnsupportedConfig(name)))
  }

  /** The loop over the requested names; it stops at the first exception. */
  function ScanFrom(t: Table, entries: map<string, string>, creds: Credentials, names: seq<string>,
                    env: map<string, string>, keys: ClientKeys): Progress
    decreases |names|
  {
    if names == [] then Progress(entries, creds, Pass)
    else
      var p := Apply(Dispatch(t, names[0]), entries, creds, names[0], env, keys);
      if p.outcome.Fail? then p else ScanFrom(t, p.entries, p.creds, names[1..], env, keys)
  }

  /** The three writes after the loop. */
  function Closing(entries: map<string, string>, creds: Credentials, keys: ClientKeys): map<string, string> {
    entries[keys.saslJaasConfig := JaasConfig(Str(creds.kafkaKey), Str(creds.kafkaSecret))]
           [keys.basicAuthCredentialsSource := "USER_INFO"]
           [keys.userInfo := Str(creds.srKey) + ":" + Str(creds.srSecret)]
  }

  /** addPropsFromEnv over a configuration map: the loop, then the closing writes if it finished. */
  function EnvResult(t: Table, entries: map<string, string>, names: seq<string>,
                     env: map<string, string>, keys: ClientKeys): Progress
  {
    var p := ScanFrom(t, entries, Initial, names, env, keys);
    if p.outcome.Fail? then p else Progress(Closing(p.entries, p.creds, keys), p.creds, Pass)
  }

  /**
   * One pass through the switch of addPropsFromEnv for the requested name
   * `prop`; `creds` stands for the locals kafkaKey, kafkaSecret, srKey and
   * srSecret.
   */
  method SwitchOnName(props: Properties, prop: string, env: map<string, string>, keys: ClientKeys,
                      creds: Credentials) returns (next: Credentials, outcome: Outcome)
    modifies props
    ensures var p := Apply(Dispatch(AsWritten, prop), old(props.entries), creds, prop, env, keys);
      props.entries == p.entries && next == p.creds && outcome == p.outcome
  {
    next := creds;
    match prop {
      case "BOOTSTRAP_SERVERS" =>
        var value := Getenv(env, prop);
        if value.None? {
          // Hashtable.put rejects a null value
          return next, Fail(NullPointer(prop));
        }
        props.Put(keys.bootstrapServers, value.value);
      case "KAFKA_KEY" =>
        next := next.(kafkaKey := Getenv(env, prop));
      case "KAFKA_SECRET" =>
        next := next.(kafkaSecret := Getenv(env, prop));
        // no break: control falls into the SCHEMA_REGISTRY_URL arm
        var value := Getenv(env, prop);
        if value.None? {
          return next, Fail(NullPointer(prop));
        }
        props.Put(keys.schemaRegistryUrl, value.value);
      case "SCHEMA_REGISTRY_URL" =>
        var value := Getenv(env, prop);
        if value.None? {
          return next, Fail(NullPointer(prop));
        }
        props.Put(keys.schemaRegistryUrl, value.value);
      case "SCHEMA_REGISTRY_KEY" =>
        next := next.(srKey := Getenv(env, prop));
      case "SCHEMA_REGISTRY_SECRET" =>
        next := next.(srSecret := Getenv(env, prop));
        // no break: control falls into default
        return next, Fail(UnsupportedConfig(prop));
      case _ =>
        return next, Fail(UnsupportedConfig(prop));
    }
    return next, Pass;
  }

  method AddPropsFromEnv(props: Properties, requiredProps: seq<string>, env: map<string, string>,
                         keys: ClientKeys) returns (outcome: Outcome)
    modifies props
    ensures props.entries == EnvResult(AsWritten, old(props.entries), requiredProps, env, keys).entries
    ensures outcome == EnvResult(AsWritten, old(props.entries), requiredProps, env, keys).outcome
  {
    var creds := Initial;
    for i := 0 to |requiredProps|
      invariant ScanFrom(AsWritten, props.entries, creds, requiredProps[i..], env, keys)
             == ScanFrom(AsWritten, old(props.entries), Initial, requiredProps, env, keys)
    {
      assert requiredProps[i..][1..] == requiredProps[i + 1..];
      creds, outcome := SwitchOnName(props, requiredProps[i], env, keys, creds);
      if outcome.Fail? {
        return;
      }
    }
    assert requiredProps[|requiredProps|..] == [];
    props.Put(keys.saslJaasConfig, JaasConfig(Str(creds.kafkaKey), Str(creds.kafkaSecret)));
    props.Put(keys.basicAuthCredentialsSource, "USER_INFO");
    props.Put(keys.userInfo, Str(creds.srKey) + ":" + Str(creds.srSecret));
    return Pass;
  }

  // -------------------------------------------------------------------
  // Reference description of the switch, independent of Dispatch
  // -------------------------------------------------------------------

  /** The names the loop accepts without an UnsupportedConfig exception. */
  function Supported(t: Table): set<string> {
    var common := {"BOOTSTRAP_SERVERS", "KAFKA_KEY", "KAFKA_SECRET", "SCHEMA_REGISTRY_URL", "SCHEMA_REGISTRY_KEY"};
    if t == AsWritten then common else common + {"SCHEMA_REGISTRY_SECRET"}
  }

  /** The names whose environment value is put under a target key. */
  function Writers(t: Table, target: Target): set<string> {
    match target
    case BootstrapServers => {"BOOTSTRAP_SERVERS"}
    case SchemaRegistryUrl =>
      if t == AsWritten then {"SCHEMA_REGISTRY_URL", "KAFKA_SECRET"} else {"SCHEMA_REGISTRY_URL"}
  }

  /** The exception one requested name raises, if any. */
  function Rejection(t: Table, name: string, env: map<string, string>): Option<Failure> {
    if name !in Supported(t) then Some(UnsupportedConfig(name))
    else if (name in Writers(t, BootstrapServers) || name in Writers(t, SchemaRegistryUrl)) && name !in env
    then Some(NullPointer(name))
    else None
  }

  /** The last name of `names` that belongs to `targets`. */
  function LastOf(names: seq<string>, targets: set<string>): (r: Option<string>)
    ensures r.Some? ==> r.value in targets && r.value in names
    ensures r.None? <==> forall i :: 0 <= i < |names| ==> names[i] !in targets
  {
    if names == [] then None
    else match LastOf(names[1..], targets)
      case Some(n) => Some(n)
      case None => if names[0] in targets then Some(names[0]) else None
  }

  /** The name LastOf picks sits at a position after which no name belongs to `targets`. */
  lemma {:induction false} LastOfIsLast(names: seq<string>, targets: set<string>)
    ensures LastOf(names, targets).Some? ==>
      exists i :: 0 <= i < |names| && names[i] == LastOf(names, targets).value
        && forall j :: i < j < |names| ==> names[j] !in targets
  {
    if names != [] {
      var tail := names[1..];
      LastOfIsLast(tail, targets);
      match LastOf(tail, targets)
      case Some(n) =>
        var k :| 0 <= k < |tail| && tail[k] == n && forall j :: k < j < |tail| ==> tail[j] !in targets;
        assert names[k + 1] == n;
        assert forall j :: k + 1 < j < |names| ==> names[j] == tail[j - 1];
      case None =>
        if names[0] in targets {
          assert forall j :: 0 < j < |names| ==> names[j] == tail[j - 1];
        }
    }
  }

  /** The value a buffer ends with: the environment value if its name was requested, else "". */
  function Requested(names: seq<string>, name: string, env: map<string, string>): JString {
    if name in names then Getenv(env, name) else Some("")
  }

  /** The arm a name selects, described by the reference sets. */
  lemma DispatchAgrees(t: Table, name: string)
    ensures Dispatch(t, name).Rejects() <==> name !in Supported(t)
    ensures forall target :: Dispatch(t, name).Puts() == Some(target) <==> name in Writers(t, target)
    ensures forall s :: Dispatch(t, name).Fills() == Some(s) ==> name == SlotName(s)
    ensures forall s :: name == SlotName(s) && name in Supported(t) ==> Dispatch(t, name).Fills() == Some(s)
  {
  }

  /** What an arm does, in terms of the buffer it fills and the key it puts. */
  lemma ApplyEffect(effect: Effect, entries: map<string, string>, creds: Credentials, name: string,
                    env: map<string, string>, keys: ClientKeys)
    ensures var p := Apply(effect, entries, creds, name, env, keys);
      && (p.outcome.Pass? <==> !effect.Rejects() && (effect.Puts().Some? ==> name in env))
      && (p.outcome.Fail? ==>
            && p.entries == entries
            && p.outcome.error == if effect.Rejects() then UnsupportedConfig(name) else NullPointer(name))
      && (p.outcome.Pass? ==>
            && (forall s :: p.creds.Get(s) == if effect.Fills() == Some(s) then Getenv(env, name) else creds.Get(s))
            && p.entries == match effect.Puts()
                            case None => entries
                            case Some(target) => entries[keys.KeyOf(target) := env[name]])
  {
  }

  /** One arm of the switch, described by the reference sets. */
  lemma StepAgrees(t: Table, entries: map<string, string>, creds: Credentials, name: string,
                   env: map<string, string>, keys: ClientKeys)
    ensures var p := Apply(Dispatch(t, name), entries, creds, name, env, keys);
      && (p.outcome.Pass? <==> Rejection(t, name, env).None?)
      && (p.outcome.Fail? ==> Some(p.outcome.error) == Rejection(t, name, env) && p.entries == entries)
      && (p.outcome.Pass? ==>
            && (forall s :: p.creds.Get(s) == if name == SlotName(s) then Getenv(env, name) else creds.Get(s))
            && p.entries == (if name in Writers(t, BootstrapServers) then entries[keys.bootstrapServers := env[name]]
                             else if name in Writers(t, SchemaRegistryUrl) then entries[keys.schemaRegistryUrl := env[name]]
                             else entries))
  {
    DispatchAgrees(t, name);
    ApplyEffect(Dispatch(t, name), entries, creds, name, env, keys);
  }

  // -------------------------------------------------------------------
  // Lemmas about the loop
  // -------------------------------------------------------------------

  /** The loop finishes exactly when no requested name raises an exception. */
  lemma {:induction false} ScanSucceedsIff(t: Table, entries: map<string, string>, creds: Credentials,
                                           names: seq<string>, env: map<string, string>, keys: ClientKeys)
    ensures ScanFrom(t, entries, creds, names, env, keys).outcome.Pass?
        <==> forall i :: 0 <= i < |names| ==> Rejection(t, names[i], env).None?
    decreases |names|
  {
    if names != [] {
      StepAgrees(t, entries, creds, names[0], env, keys);
      var p := Apply(Dispatch(t, names[0]), entries, creds, names[0], env, keys);
      if p.outcome.Pass? {
        ScanSucceedsIff(t, p.entries, p.creds, names[1..], env, keys);
        assert forall i :: 1 <= i < |names| ==> names[i] == names[1..][i - 1];
      }
    }
  }

  /** The loop stops at the first rejected name, keeping every write made before it. */
  lemma {:induction false} ScanFailsAt(t: Table, entries: map<string, string>, creds: Credentials,
                                       names: seq<string>, env: map<string, string>, keys: ClientKeys, i: nat)
    requires i < |names| && Rejection(t, names[i], env).Some?
    requires forall j :: 0 <= j < i ==> Rejection(t, names[j], env).None?
    ensures var p := ScanFrom(t, entries, creds, names, env, keys);
      && p.outcome == Fail(Rejection(t, names[i], env).value)
      && p.entries == ScanFrom(t, entries, creds, names[..i], env, keys).entries
    decreases i
  {
    StepAgrees(t, entries, creds, names[0], env, keys);
    if i > 0 {
      var p := Apply(Dispatch(t, names[0]), entries, creds, names[0], env, keys);
      assert Rejection(t, names[0], env).None?;
      ScanFailsAt(t, p.entries, p.creds, names[1..], env, keys, i - 1);
      assert names[..i][0] == names[0];
      assert names[..i][1..] == names[1..][..i - 1];
    }
  }

  /** The loop writes no key other than the two direct-write keys. */
  lemma {:induction false} ScanFrame(t: Table, entries: map<string, string>, creds: Credentials,
                                     names: seq<string>, env: map<string, string>, keys: ClientKeys, k: string)
    requires k != keys.bootstrapServers && k != keys.schemaRegistryUrl
    ensures var p := ScanFrom(t, entries, creds, names, env, keys);
      && (k in p.entries <==> k in entries)
      && (k in entries ==> p.entries[k] == entries[k])
    decreases |names|
  {
    if names != [] {
      StepAgrees(t, entries, creds, names[0], env, keys);
      var p := Apply(Dispatch(t, names[0]), entries, creds, names[0], env, keys);
      if p.outcome.Pass? {
        ScanFrame(t, p.entries, p.creds, names[1..], env, keys, k);
      }
    }
  }

  /** After a finished loop each buffer holds its name's environment value if requested, else what it held. */
  lemma {:induction false} ScanCredentials(t: Table, entries: map<string, string>, creds: Credentials,
                                           names: seq<string>, env: map<string, string>, keys: ClientKeys, s: Slot)
    requires ScanFrom(t, entries, creds, names, env, keys).outcome.Pass?
    ensures ScanFrom(t, entries, creds, names, env, keys).creds.Get(s)
         == if SlotName(s) in names then Getenv(env, SlotName(s)) else creds.Get(s)
    decreases |names|
  {
    if names != [] {
      StepAgrees(t, entries, creds, names[0], env, keys);
      var p := Apply(Dispatch(t, names[0]), entries, creds, names[0], env, keys);
      ScanCredentials(t, p.entries, p.creds, names[1..], env, keys, s);
      assert SlotName(s) in names <==> SlotName(s) == names[0] || SlotName(s) in names[1..];
    }
  }

  /** After a finished loop a direct-write key holds the value of the last name that writes it. */
  lemma {:induction false} ScanTarget(t: Table, entries: map<string, string>, creds: Credentials,
                                      names: seq<string>, env: map<string, string>, keys: ClientKeys, target: Target)
    requires keys.bootstrapServers != keys.schemaRegistryUrl
    requires ScanFrom(t, entries, creds, names, env, keys).outcome.Pass?
    ensures var p := ScanFrom(t, entries, creds, names, env, keys);
      var k := keys.KeyOf(target);
      match LastOf(names, Writers(t, target))
      case Some(n) => n in env && k in p.entries && p.entries[k] == env[n]
      case None => (k in p.entries <==> k in entries) && (k in entries ==> p.entries[k] == entries[k])
    decreases |names|
  {
    if names != [] {
      StepAgrees(t, entries, creds, names[0], env, keys);
      var p := Apply(Dispatch(t, names[0]), entries, creds, names[0], env, keys);
      ScanTarget(t, p.entries, p.creds, names[1..], env, keys, target);
    }
  }

  // -------------------------------------------------------------------
  // Lemmas about addPropsFromEnv
  // -------------------------------------------------------------------

  /** The call returns normally exactly when no requested name raises an exception. */
  lemma EnvSucceedsIff(t: Table, entries: map<string, string>, names: seq<string>,
                       env: map<string, string>, keys: ClientKeys)
    ensures EnvResult(t, entries, names, env, keys).outcome.Pass?
        <==> forall i :: 0 <= i < |names| ==> Rejection(t, names[i], env).None?
  {
    ScanSucceedsIff(t, entries, Initial, names, env, keys);
  }

  /**
   * The call fails at the first rejected name with that name's exception;
   * the writes for the names before it persist and the closing writes are
   * not made.
   */
  lemma EnvFailsAtFirstRejected(t: Table, entries: map<string, string>, names: seq<string>,
                                env: map<string, string>, keys: ClientKeys, i: nat)
    requires keys.Distinct()
    requires i < |names| && Rejection(t, names[i], env).Some?
    requires forall j :: 0 <= j < i ==> Rejection(t, names[j], env).None?
    ensures var r := EnvResult(t, entries, names, env, keys);
      && r.outcome == Fail(Rejection(t, names[i], env).value)
      && r.entries == ScanFrom(t, entries, Initial, names[..i], env, keys).entries
      && forall k :: k in {keys.saslJaasConfig, keys.basicAuthCredentialsSource, keys.userInfo} ==>
           (k in r.entries <==> k in entries) && (k in entries ==> r.entries[k] == entries[k])
  {
    ScanFailsAt(t, entries, Initial, names, env, keys, i);
    ScanFrame(t, entries, Initial, names, env, keys, keys.saslJaasConfig);
    ScanFrame(t, entries, Initial, names, env, keys, keys.basicAuthCredentialsSource);
    ScanFrame(t, entries, Initial, names, env, keys, keys.userInfo);
  }

  /** Whatever the outcome, only the five library keys can change. */
  lemma EnvFrame(t: Table, entries: map<string, string>, names: seq<string>,
                 env: map<string, string>, keys: ClientKeys, k: string)
    requires k !in keys.All()
    ensures var r := EnvResult(t, entries, names, env, keys);
      && (k in r.entries <==> k in entries)
      && (k in entries ==> r.entries[k] == entries[k])
  {
    assert k != keys.bootstrapServers && k != keys.schemaRegistryUrl;
    assert k != keys.saslJaasConfig && k != keys.basicAuthCredentialsSource && k != keys.userInfo;
    var p := ScanFrom(t, entries, Initial, names, env, keys);
    ScanFrame(t, entries, Initial, names, env, keys, k);
    ClosingFrame(p.entries, p.creds, keys, k);
  }

  /** On normal return the three composite entries hold the buffered credentials. */
  lemma EnvSuccessComposite(t: Table, entries: map<string, string>, names: seq<string>,
                            env: map<string, string>, keys: ClientKeys)
    requires keys.Distinct()
    requires EnvResult(t, entries, names, env, keys).outcome.Pass?
    ensures var r := EnvResult(t, entries, names, env, keys).entries;
      && keys.saslJaasConfig in r
      && r[keys.saslJaasConfig] == JaasConfig(Str(Requested(names, "KAFKA_KEY", env)),
                                              Str(Requested(names, "KAFKA_SECRET", env)))
      && keys.basicAuthCredentialsSource in r && r[keys.basicAuthCredentialsSource] == "USER_INFO"
      && keys.userInfo in r
      && r[keys.userInfo] == Str(Requested(names, "SCHEMA_REGISTRY_KEY", env)) + ":"
                             + Str(Requested(names, "SCHEMA_REGISTRY_SECRET", env))
  {
    var p := ScanFrom(t, entries, Initial, names, env, keys);
    assert p.outcome.Pass?;
    assert EnvResult(t, entries, names, env, keys).entries == Closing(p.entries, p.creds, keys);
    ScanCredentials(t, entries, Initial, names, env, keys, KafkaKey);
    ScanCredentials(t, entries, Initial, names, env, keys, KafkaSecret);
    ScanCredentials(t, entries, Initial, names, env, keys, SchemaRegistryKey);
    ScanCredentials(t, entries, Initial, names, env, keys, SchemaRegistrySecret);
    ClosingValues(p.entries, p.creds, keys);
  }

  /** On normal return a direct-write key holds the value of the last name that writes it (last write wins). */
  lemma EnvSuccessDirect(t: Table, entries: map<string, string>, names: seq<string>,
                         env: map<string, string>, keys: ClientKeys, target: Target)
    requires keys.Distinct()
    requires EnvResult(t, entries, names, env, keys).outcome.Pass?
    ensures var r := EnvResult(t, entries, names, env, keys).entries;
      var k := keys.KeyOf(target);
      match LastOf(names, Writers(t, target))
      case Some(n) => n in env && k in r && r[k] == env[n]
      case None => (k in r <==> k in entries) && (k in entries ==> r[k] == entries[k])
  {
    var p := ScanFrom(t, entries, Initial, names, env, keys);
    assert p.outcome.Pass?;
    assert EnvResult(t, entries, names, env, keys).entries == Closing(p.entries, p.creds, keys);
    ScanTarget(t, entries, Initial, names, env, keys, target);
    ClosingFrame(p.entries, p.creds, keys, keys.KeyOf(target));
  }

  /** What the closing writes store, when the three keys are different. */
  lemma ClosingValues(entries: map<string, string>, creds: Credentials, keys: ClientKeys)
    requires keys.Distinct()
    ensures var r := Closing(entries, creds, keys);
      && keys.saslJaasConfig in r && r[keys.saslJaasConfig] == JaasConfig(Str(creds.kafkaKey), Str(creds.kafkaSecret))
      && keys.basicAuthCredentialsSource in r && r[keys.basicAuthCredentialsSource] == "USER_INFO"
      && keys.userInfo in r && r[keys.userInfo] == Str(creds.srKey) + ":" + Str(creds.srSecret)
  {
  }

  /** The closing writes touch only their three keys. */
  lemma ClosingFrame(entries: map<string, string>, creds: Credentials, keys: ClientKeys, k: string)
    requires k != keys.saslJaasConfig && k != keys.basicAuthCredentialsSource && k != keys.userInfo
    ensures (k in Closing(entries, creds, keys) <==> k in entries)
    ensures k in entries ==> Closing(entries, creds, keys)[k] == entries[k]
  {
  }

  // -------------------------------------------------------------------
  // The two fall-throughs of the switch as written
  // -------------------------------------------------------------------

  /**
   * SCHEMA_REGISTRY_SECRET falls into default: requesting it always ends
   * in an exception, so on normal return the user-info secret is "".
   */
  lemma AsWrittenSchemaRegistrySecret(entries: map<string, string>, names: seq<string>,
                                      env: map<string, string>, keys: ClientKeys)
    requires keys.Distinct()
    ensures "SCHEMA_REGISTRY_SECRET" in names ==> EnvResult(AsWritten, entries, names, env, keys).outcome.Fail?
    ensures var r := EnvResult(AsWritten, entries, names, env, keys);
      r.outcome.Pass? ==>
        keys.userInfo in r.entries && r.entries[keys.userInfo] == Str(Requested(names, "SCHEMA_REGISTRY_KEY", env)) + ":"
  {
    EnvSucceedsIff(AsWritten, entries, names, env, keys);
    if "SCHEMA_REGISTRY_SECRET" in names {
      var i :| 0 <= i < |names| && names[i] == "SCHEMA_REGISTRY_SECRET";
      assert Rejection(AsWritten, names[i], env).Some?;
    } else if EnvResult(AsWritten, entries, names, env, keys).outcome.Pass? {
      EnvSuccessComposite(AsWritten, entries, names, env, keys);
    }
  }

  /**
   * KAFKA_SECRET falls into the SCHEMA_REGISTRY_URL arm: on normal return,
   * when KAFKA_SECRET comes after every SCHEMA_REGISTRY_URL, the
   * schema-registry URL holds the Kafka secret.
   */
  lemma AsWrittenKafkaSecretOverwritesUrl(entries: map<string, string>, names: seq<string>,
                                          env: map<string, string>, keys: ClientKeys)
    requires keys.Distinct()
    requires EnvResult(AsWritten, entries, names, env, keys).outcome.Pass?
    requires LastOf(names, {"SCHEMA_REGISTRY_URL", "KAFKA_SECRET"}) == Some("KAFKA_SECRET")
    ensures var r := EnvResult(AsWritten, entries, names, env, keys).entries;
      "KAFKA_SECRET" in env && keys.schemaRegistryUrl in r && r[keys.schemaRegistryUrl] == env["KAFKA_SECRET"]
  {
    EnvSuccessDirect(AsWritten, entries, names, env, keys, SchemaRegistryUrl);
  }

  // -------------------------------------------------------------------
  // The switch with its two breaks restored
  // -------------------------------------------------------------------

  /**
   * With the breaks restored, every supported name is accepted, the URL key
   * only ever holds SCHEMA_REGISTRY_URL, and user-info pairs the
   * schema-registry key with its secret.
   */
  lemma IntendedCredentials(entries: map<string, string>, names: seq<string>,
                            env: map<string, string>, keys: ClientKeys)
    requires keys.Distinct()
    requires forall i :: 0 <= i < |names| ==> Rejection(Intended, names[i], env).None?
    ensures var r := EnvResult(Intended, entries, names, env, keys);
      && r.outcome.Pass?
      && keys.userInfo in r.entries
      && r.entries[keys.userInfo] == Str(Requested(names, "SCHEMA_REGISTRY_KEY", env)) + ":"
                                     + Str(Requested(names, "SCHEMA_REGISTRY_SECRET", env))
      && ("SCHEMA_REGISTRY_URL" in names ==>
            "SCHEMA_REGISTRY_URL" in env && keys.schemaRegistryUrl in r.entries && r.entries[keys.schemaRegistryUrl] == env["SCHEMA_REGISTRY_URL"])
      && ("SCHEMA_REGISTRY_URL" !in names ==>
            (keys.schemaRegistryUrl in r.entries <==> keys.schemaRegistryUrl in entries)
            && (keys.schemaRegistryUrl in entries ==> r.entries[keys.schemaRegistryUrl] == entries[keys.schemaRegistryUrl]))
  {
    EnvSucceedsIff(Intended, entries, names, env, keys);
    EnvSuccessComposite(Intended, entries, names, env, keys);
    EnvSuccessDirect(Intended, entries, names, env, keys, SchemaRegistryUrl);
    var last := LastOf(names, {"SCHEMA_REGISTRY_URL"});
    assert last.Some? ==> last.value == "SCHEMA_REGISTRY_URL";
    if "SCHEMA_REGISTRY_URL" in names {
      var i :| 0 <= i < |names| && names[i] == "SCHEMA_REGISTRY_URL";
      assert names[i] in {"SCHEMA_REGISTRY_URL"};
    }
  }
}
