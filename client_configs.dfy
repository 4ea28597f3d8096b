/**
 * The configuration key names the helpers write. Their values are constants
 * of the Kafka and Confluent client libraries; the model keeps them opaque
 * and passes them in as a record.
 */
module ClientConfigs {

  /** The two keys a requested environment name writes directly. */
  datatype Target = BootstrapServers | SchemaRegistryUrl

  datatype ClientKeys = ClientKeys(
    bootstrapServers: string,            // CommonClientConfigs.BOOTSTRAP_SERVERS_CONFIG
    schemaRegistryUrl: string,           // AbstractKafkaSchemaSerDeConfig.SCHEMA_REGISTRY_URL_CONFIG
    saslJaasConfig: string,              // SaslConfigs.SASL_JAAS_CONFIG
    basicAuthCredentialsSource: string,  // AbstractKafkaSchemaSerDeConfig.BASIC_AUTH_CREDENTIALS_SOURCE
    userInfo: string)                    // AbstractKafkaSchemaSerDeConfig.USER_INFO_CONFIG
  {
    /** The library constants are five different strings. */
    predicate Distinct() {
      && bootstrapServers != schemaRegistryUrl
      && bootstrapServers != saslJaasConfig
      && bootstrapServers != basicAuthCredentialsSource
      && bootstrapServers != userInfo
      && schemaRegistryUrl != saslJaasConfig
      && schemaRegistryUrl != basicAuthCredentialsSource
      && schemaRegistryUrl != userInfo
      && saslJaasConfig != basicAuthCredentialsSource
      && saslJaasConfig != userInfo
      && basicAuthCredentialsSource != userInfo
    }

    function KeyOf(t: Target): string {
      match t
      case BootstrapServers => bootstrapServers
      case SchemaRegistryUrl => schemaRegistryUrl
    }

    /** Every key the environment loader may write. */
    function All(): set<string> {
      {bootstrapServers, schemaRegistryUrl, saslJaasConfig, basicAuthCredentialsSource, userInfo}
    }
  }
}
