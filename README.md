# kafka-utils configuration helpers in Dafny

This project models the two static helpers of `Utils` in kafka-utils. An
application uses them to assemble the `java.util.Properties` it passes to a
Kafka producer or consumer and to a schema-registry client.

- `preInitChecks(configuredProps, requiredProps)` walks a list of required
  property names and is meant to throw a `ConfigException` that lists the
  missing ones.
- `addPropsFromEnv(props, requiredProps)` walks a list of environment
  variable names through a `switch`. Some names are put straight into
  `props`: `BOOTSTRAP_SERVERS` and `SCHEMA_REGISTRY_URL`. Others are buffered
  in four local strings: `KAFKA_KEY`, `KAFKA_SECRET`, `SCHEMA_REGISTRY_KEY`
  and `SCHEMA_REGISTRY_SECRET`. Two buffering arms lack a `break`:
  `KAFKA_SECRET` also puts its value under the schema-registry URL key, and
  `SCHEMA_REGISTRY_SECRET` always reaches `default` and throws. After the loop
  it writes three composite entries: the SASL JAAS line, the credentials
  source `USER_INFO`, and the schema-registry user info `key:secret`.

How the model is laid out:

- `outcomes.dfy` (module `Outcomes`): the failures the helpers raise.
  - `MissingRequired` and `UnsupportedConfig` stand for the two
    `ConfigException`s. `NullPointer` stands for a `NullPointerException`.
  - `Message` gives the exception text.
- `client_configs.dfy` (module `ClientConfigs`): the five library key
  constants as an opaque record `ClientKeys`.
  - These are `BOOTSTRAP_SERVERS_CONFIG`, `SCHEMA_REGISTRY_URL_CONFIG`,
    `SASL_JAAS_CONFIG`, `BASIC_AUTH_CREDENTIALS_SOURCE` and
    `USER_INFO_CONFIG`.
  - Their values live in the Kafka and Confluent libraries. The model
    assumes only that they are five different strings (`Distinct`), and only
    where a lemma needs it.
- `properties.dfy` (module `JavaUtil`): `Properties` as a class with one
  field, `entries: map<string, string>`. `get` returns null for an absent
  key. `put` updates the map in place.
- `utils.dfy` (module `Utils`): the two helpers as imperative methods.
  - `PreInitChecks` and `AddPropsFromEnv` each carry a loop. Each is proved
    equal to a specification function: `PreInitResult` and `EnvResult`.
  - The `switch` is the helper method `SwitchOnName`, called once per loop
    turn; the source has it inline. Its four local strings are held in one
    `Credentials` record.
  - The environment is an input map `env`, standing in for `System.getenv`.
  - An unset variable is Java `null` (`None`), with the two Java effects
    that follow from it. `Hashtable.put` of a null value throws, which is
    `NullPointer(name)`. String concatenation renders null as `"null"`
    (`Str`).
  - The specification describes the `switch` as a table (`Dispatch`) from a
    name to an `Effect`. `AsWritten` is the table with the two fall-throughs
    the source has. `Intended` is the same table with the missing `break`s
    restored.
  - The lemmas relate the loop to reference definitions that do not use the
    table. `Supported`, `Writers` and `Rejection` say which names are
    accepted and which keys they write. `LastOf` says which name writes a key
    last. `Requested` says which value a buffer ends with.

What the code does, as opposed to what its comments describe:

- `preInitChecks` calls `configuredProps.get(prop).equals(null)`.
  - For a present key this is always false.
  - For an absent key `get` returns null, and the call throws a
    `NullPointerException` at the first absent key.
  - So the "Missing required properties" exception is never thrown. The
    doc comment promises a `ConfigException` when a key is missing (lines
    19 and 23). The code throws a `NullPointerException` instead, and the
    listing message of line 33 is never reached. The model follows the
    code.
- The JAAS line has three spaces before `required` and three before
  `password`, and the model keeps them byte for byte:
  `org.apache.kafka.common.security.plain.PlainLoginModule   required username='<key>'   password='<secret>';`.
- The `KAFKA_SECRET` arm has no `break`. It buffers the secret and then
  falls into the `SCHEMA_REGISTRY_URL` arm, so it also puts the Kafka secret
  under the schema-registry URL key (and throws if the variable is unset).
- The `SCHEMA_REGISTRY_SECRET` arm has no `break` either. It buffers the
  secret and falls into `default`, so requesting it always ends in the
  "Unsupported or unknown config" exception, and the user info written on a
  normal return never carries a schema-registry secret.
- The three composite entries are written after every loop that finishes.
  This holds even when no credential name was requested, and a buffer that
  was never filled contributes `""`.

## Model

| member | source | states |
|---|---|---|
| `Utils.PreInitChecks` | src/main/java/com/github/zacharydhamilton/kafka/common/Utils.java:25-35 | The method returns exactly `PreInitResult` of the configuration. It changes nothing, and the loop carries the invariant that the rest of the list decides the result. |
| `Utils.PreInitResult` | src/main/java/com/github/zacharydhamilton/kafka/common/Utils.java:27-31 | Returns normally if and only if every required key has a value. Otherwise it fails with a null dereference that names an absent required key. |
| `Utils.PreInitFailsAtFirstAbsent` | src/main/java/com/github/zacharydhamilton/kafka/common/Utils.java:27-31 | If key `i` is the first absent one in list order, the check fails with `NullPointer` naming key `i`. |
| `Utils.PreInitNeverReportsMissing` | src/main/java/com/github/zacharydhamilton/kafka/common/Utils.java:32-34 | The "Missing required properties" exception is never the outcome. |
| `Utils.PreInitNamesFirstMissing` | src/main/java/com/github/zacharydhamilton/kafka/common/Utils.java:28-33 | As written, the check passes exactly when no key is missing. Otherwise it fails with a null dereference naming only the first missing key, never with the list. |
| `Utils.MissingKeys` | src/main/java/com/github/zacharydhamilton/kafka/common/Utils.java:26-31 | Definition, no contract of its own: the required keys absent from the map, in list order, as the corrected loop collects them. `MissingKeysExact` and `MissingKeysEmpty` give its properties. |
| `Utils.MissingKeysExact` | src/main/java/com/github/zacharydhamilton/kafka/common/Utils.java:26-31 | A name is in the list of missing keys if and only if it is required and absent from the map. |
| `Utils.MissingKeysEmpty` | src/main/java/com/github/zacharydhamilton/kafka/common/Utils.java:32 | The list of missing keys is empty if and only if every required key is present. |
| `Utils.CheckRequired` | src/main/java/com/github/zacharydhamilton/kafka/common/Utils.java:18-35 | The corrected check passes if and only if every required key is present. Otherwise it fails with `MissingRequired` listing exactly the missing keys, in list order. |
| `Utils.SwitchOnName` | src/main/java/com/github/zacharydhamilton/kafka/common/Utils.java:65-84 | One pass through the `switch` updates the map, the four buffers and the outcome exactly as the `AsWritten` table says, fall-throughs included. |
| `Utils.AddPropsFromEnv` | src/main/java/com/github/zacharydhamilton/kafka/common/Utils.java:59-89 | The new map and the outcome are exactly those of `EnvResult` on the old map. This covers the writes kept from the loop and the closing writes when the loop finishes. |
| `Utils.Dispatch` | src/main/java/com/github/zacharydhamilton/kafka/common/Utils.java:65-84 | Definition, no contract of its own: the arm of the `switch` a name selects, with the two fall-throughs in `AsWritten` and the `break`s restored in `Intended`. `DispatchAgrees` relates it to `Supported`, `Writers` and `SlotName`. |
| `Utils.PutEnv` | src/main/java/com/github/zacharydhamilton/kafka/common/Utils.java:67-75 | Definition, no contract of its own: `props.put(key, getenv(name))` (lines 67 and 75), which throws a null dereference for an unset variable before storing anything. `ApplyEffect` and `StepAgrees` give its properties. |
| `Utils.Apply` | src/main/java/com/github/zacharydhamilton/kafka/common/Utils.java:65-84 | Definition, no contract of its own: what one arm does to the map, the buffers and the outcome. `ApplyEffect` and `StepAgrees` give its properties, and `SwitchOnName` is proved equal to it. |
| `Utils.DispatchAgrees` | src/main/java/com/github/zacharydhamilton/kafka/common/Utils.java:65-84 | An arm ends in `default` if and only if the name is not supported. It writes a key if and only if the name is one of that key's writers. It fills exactly the buffer named after it. |
| `Utils.ApplyEffect` | src/main/java/com/github/zacharydhamilton/kafka/common/Utils.java:66-83 | An arm fails if and only if it reaches `default`, or puts an unset variable. A failing arm leaves the map unchanged. A passing arm fills its buffer and puts only its key. |
| `Utils.StepAgrees` | src/main/java/com/github/zacharydhamilton/kafka/common/Utils.java:65-84 | One name passes if and only if `Rejection` finds nothing. On failure the error is the one `Rejection` gives. On success it changes exactly the buffer and the key the reference sets name. |
| `Utils.ScanFrom` | src/main/java/com/github/zacharydhamilton/kafka/common/Utils.java:64-85 | Definition, no contract of its own: the loop over the requested names, stopping at the first exception. `ScanSucceedsIff`, `ScanFailsAt`, `ScanFrame`, `ScanCredentials` and `ScanTarget` give its properties. |
| `Utils.ScanSucceedsIff` | src/main/java/com/github/zacharydhamilton/kafka/common/Utils.java:64-85 | The loop finishes if and only if no requested name is rejected. |
| `Utils.ScanFailsAt` | src/main/java/com/github/zacharydhamilton/kafka/common/Utils.java:64-85 | The loop stops at the first rejected name, with that name's exception. Its map is the map after the names before it. |
| `Utils.ScanFrame` | src/main/java/com/github/zacharydhamilton/kafka/common/Utils.java:64-85 | The loop changes no key other than the bootstrap-servers and schema-registry-URL keys. |
| `Utils.ScanCredentials` | src/main/java/com/github/zacharydhamilton/kafka/common/Utils.java:60-85 | After a finished loop, each buffer holds its variable's value if its name was requested, and what it held before otherwise. |
| `Utils.ScanTarget` | src/main/java/com/github/zacharydhamilton/kafka/common/Utils.java:64-85 | After a finished loop, a direct-write key holds the value of the last requested name that writes it. If no such name was requested, the key is as it was. |
| `Utils.EnvResult` | src/main/java/com/github/zacharydhamilton/kafka/common/Utils.java:59-89 | Definition, no contract of its own: the loop, then the closing writes only if the loop finished. `EnvSucceedsIff`, `EnvFailsAtFirstRejected`, `EnvFrame`, `EnvSuccessComposite` and `EnvSuccessDirect` give its properties, and `AddPropsFromEnv` is proved equal to it. |
| `Utils.EnvSucceedsIff` | src/main/java/com/github/zacharydhamilton/kafka/common/Utils.java:59-89 | `addPropsFromEnv` returns normally if and only if every requested name is accepted. |
| `Utils.EnvFailsAtFirstRejected` | src/main/java/com/github/zacharydhamilton/kafka/common/Utils.java:82-88 | It fails at the first rejected name, with `UnsupportedConfig` or `NullPointer` naming it. The writes made for earlier names persist. The three closing entries are left as they were. |
| `Utils.EnvFrame` | src/main/java/com/github/zacharydhamilton/kafka/common/Utils.java:59-89 | Whatever the outcome, every key other than the five library keys keeps its presence and its value. |
| `Utils.EnvSuccessComposite` | src/main/java/com/github/zacharydhamilton/kafka/common/Utils.java:60-88 | On normal return, the JAAS key holds the exact JAAS line of the Kafka key and secret. The credentials-source key holds `USER_INFO`, and the user-info key holds `srKey:srSecret`. A name that was not requested contributes `""`, and an unset one contributes `"null"`. |
| `Utils.LastOfIsLast` | src/main/java/com/github/zacharydhamilton/kafka/common/Utils.java:64-85 | The name `LastOf` picks for a key has no writer of that key after it in the list, so "the last writer" in `ScanTarget` and `EnvSuccessDirect` is the last put the loop makes. |
| `Utils.EnvSuccessDirect` | src/main/java/com/github/zacharydhamilton/kafka/common/Utils.java:64-85 | On normal return, the bootstrap-servers and URL keys hold the environment value of their last writer. Without a writer they are unchanged. |
| `Utils.JaasConfig` | src/main/java/com/github/zacharydhamilton/kafka/common/Utils.java:86 | Definition, no contract of its own: the JAAS line, with three spaces before `required` and before `password`. `ClosingValues` and `EnvSuccessComposite` state where it is stored. |
| `Utils.Closing` | src/main/java/com/github/zacharydhamilton/kafka/common/Utils.java:86-88 | Definition, no contract of its own: the three writes after the loop. `ClosingValues` and `ClosingFrame` give its properties. |
| `Utils.ClosingValues` | src/main/java/com/github/zacharydhamilton/kafka/common/Utils.java:86-88 | The closing writes store the JAAS line, `USER_INFO` and `key:secret` under their three keys. |
| `Utils.ClosingFrame` | src/main/java/com/github/zacharydhamilton/kafka/common/Utils.java:86-88 | The closing writes change no key other than their three. |
| `Utils.AsWrittenSchemaRegistrySecret` | src/main/java/com/github/zacharydhamilton/kafka/common/Utils.java:80-83 | Requesting `SCHEMA_REGISTRY_SECRET` always ends in an exception. So on normal return the user info is the schema-registry key followed by `:` and nothing else. |
| `Utils.AsWrittenKafkaSecretOverwritesUrl` | src/main/java/com/github/zacharydhamilton/kafka/common/Utils.java:72-76 | On normal return, when `KAFKA_SECRET` comes after every `SCHEMA_REGISTRY_URL`, the schema-registry URL key holds the Kafka secret. |
| `Utils.IntendedCredentials` | src/main/java/com/github/zacharydhamilton/kafka/common/Utils.java:72-83 | With the `break`s restored, every supported name is accepted. The URL key is set only by `SCHEMA_REGISTRY_URL`, and the user info pairs the schema-registry key with its secret. |
| `Outcomes.Message` | src/main/java/com/github/zacharydhamilton/kafka/common/Utils.java:83 | The unsupported-config message is `Unsupported or unknown config: ` followed by the name. A null dereference has no message. |
| `Outcomes.UnsupportedMessageInjective` | src/main/java/com/github/zacharydhamilton/kafka/common/Utils.java:83 | Two unsupported-config messages are equal only when they name the same name. |

## Left out

- `addPropsFromFile` (Utils.java:44-51) is filesystem access plus `Properties.load`. The parser of properties files belongs to the Java library and is not part of this model.
- The process environment is not read. `System.getenv` is replaced by the input map `env`.
- The concrete values of the five Kafka and Confluent key constants are left out, and so is the `ConfigException` class hierarchy. The keys are an opaque `ClientKeys` record, and the exceptions are the `Failure` datatype carrying the offending name.
- Java null as an argument is left out: `configuredProps` or `requiredProps` of `preInitChecks`, `props` or `requiredProps` of `addPropsFromEnv`, or a null element of either `requiredProps`. Each throws a `NullPointerException` in the source (a null list at the for-each). The model's arguments are always objects and its lists hold only strings.
- `Properties` is reduced to a map from strings to strings. It leaves out non-string keys and values, the defaults chain and the synchronisation of `Hashtable`.
- `Message` gives text only for the two `ConfigException`s. The text of a `NullPointerException` depends on the JVM.
- `Outcomes.ListToString` models `ArrayList.toString` for the missing-properties message, which only the corrected `CheckRequired` produces. No lemma is stated about it.
- The downstream Kafka and schema-registry clients that consume the configuration are external systems.

## Findings

| source | as written | input that shows it | evidently intended | confidence | as-written member | corrected member |
|---|---|---|---|---|---|---|
| src/main/java/com/github/zacharydhamilton/kafka/common/Utils.java:28 | `configuredProps.get(prop).equals(null)` is false for every value, and throws for an absent key | required `["a"]` against a configuration without `a`: a `NullPointerException` instead of "Missing required properties: [a]" | compare `get(prop)` with null and collect every missing key | high (not executed) | `Utils.PreInitNamesFirstMissing` | `Utils.CheckRequired` |
| src/main/java/com/github/zacharydhamilton/kafka/common/Utils.java:72-76 | the `KAFKA_SECRET` arm has no `break` and also puts its value under the schema-registry URL key | requested `["SCHEMA_REGISTRY_URL", "KAFKA_SECRET"]` with both set: the URL key ends up holding the Kafka secret | buffer the secret and stop | high (not executed) | `Utils.AsWrittenKafkaSecretOverwritesUrl` | `Utils.IntendedCredentials` |
| src/main/java/com/github/zacharydhamilton/kafka/common/Utils.java:80-83 | the `SCHEMA_REGISTRY_SECRET` arm has no `break` and always throws "Unsupported or unknown config" | requested `["SCHEMA_REGISTRY_KEY", "SCHEMA_REGISTRY_SECRET"]`: a `ConfigException` instead of user info `key:secret` | buffer the secret and stop | high (not executed) | `Utils.AsWrittenSchemaRegistrySecret` | `Utils.IntendedCredentials` |

`PreInitChecks` and `AddPropsFromEnv` model the source as written. `CheckRequired` and the `Intended` table sit beside them as the corrected behaviour. The lemmas stated for every table (`EnvSucceedsIff`, `EnvFrame`, `EnvSuccessComposite`, `EnvSuccessDirect`, `EnvFailsAtFirstRejected`) also hold for `Intended`.
