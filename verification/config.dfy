/** The Northwind API's configuration: three settings read from the
    environment when the module loads, and the `Meta` entries that
    `Config.pynamodb_meta_for` offers for a PynamoDB model. The models
    themselves build their `Meta` inline and do not call it. */
module NorthwindConfig {
  import opened Results

  const DefaultRegion: string := "us-east-1"
  const DefaultLogLevel: string := "INFO"

  const RegionVar: string := "AWS_REGION"
  const EndpointVar: string := "DYNAMODB_ENDPOINT"
  const LogLevelVar: string := "LOG_LEVEL"

  const TableNameKey: string := "table_name"
  const RegionKey: string := "region"
  const HostKey: string := "host"

  /** The environment is a map from variable names to values; a variable
      that is set to the empty string is present. */
  type Environment = map<string, string>

  datatype Config = Config(awsRegion: string, dynamodbEndpoint: Option<string>, logLevel: string)

  /** `os.getenv(name, default)`: the variable's value whenever it is set,
      even to the empty string, and the default only when it is not set. */
  function GetEnv(env: Environment, name: string, default: string): (r: string)
    ensures name in env ==> r == env[name]
    ensures name !in env ==> r == default
  {
    if name in env then env[name] else default
  }

  /** `os.getenv(name)`: `None` when the variable is not set. */
  function GetEnvOptional(env: Environment, name: string): (r: Option<string>)
    ensures r.Some? <==> name in env
    ensures r.Some? ==> r.value == env[name]
  {
    if name in env then Some(env[name]) else None
  }

  /** The class attributes of `Config`, evaluated once at import. */
  function LoadConfig(env: Environment): (c: Config)
    ensures c.awsRegion == (if RegionVar in env then env[RegionVar] else DefaultRegion)
    ensures c.dynamodbEndpoint.Some? <==> EndpointVar in env
    ensures c.dynamodbEndpoint.Some? ==> c.dynamodbEndpoint.value == env[EndpointVar]
    ensures c.logLevel == (if LogLevelVar in env then env[LogLevelVar] else DefaultLogLevel)
  {
    Config(
      GetEnv(env, RegionVar, DefaultRegion),
      GetEnvOptional(env, EndpointVar),
      GetEnv(env, LogLevelVar, DefaultLogLevel))
  }

  /** Python truthiness of an optional string: present and non-empty. */
  predicate IsTruthy(s: Option<string>) {
    s.Some? && s.value != []
  }

  /** `Config.pynamodb_meta_for(table_name)`: the table name and region,
      plus the endpoint as `host` exactly when one is configured and is not
      the empty string. */
  function MetaFor(cfg: Config, tableName: string): (m: map<string, string>)
    ensures m.Keys <= {TableNameKey, RegionKey, HostKey}
    ensures TableNameKey in m && m[TableNameKey] == tableName
    ensures RegionKey in m && m[RegionKey] == cfg.awsRegion
    ensures HostKey in m <==> IsTruthy(cfg.dynamodbEndpoint)
    ensures HostKey in m ==> m[HostKey] == cfg.dynamodbEndpoint.value
  {
    var meta := map[TableNameKey := tableName, RegionKey := cfg.awsRegion];
    if IsTruthy(cfg.dynamodbEndpoint) then meta[HostKey := cfg.dynamodbEndpoint.value] else meta
  }

  /** What `pynamodb_meta_for` returns, read straight off the environment:
      the region falls back to `us-east-1` only when the variable is unset, and
      a `host` entry appears only for a set, non-empty endpoint. The entry
      count is two without a host and three with one. */
  lemma MetaFromEnvironment(env: Environment, tableName: string)
    ensures var m := MetaFor(LoadConfig(env), tableName);
      && m[TableNameKey] == tableName
      && m[RegionKey] == (if RegionVar in env then env[RegionVar] else DefaultRegion)
      && (HostKey in m <==> EndpointVar in env && env[EndpointVar] != [])
      && (HostKey in m ==> m[HostKey] == env[EndpointVar])
      && |m| == (if HostKey in m then 3 else 2)
  {
    var m := MetaFor(LoadConfig(env), tableName);
    var base := {TableNameKey, RegionKey};
    assert TableNameKey != RegionKey && TableNameKey != HostKey && RegionKey != HostKey;
    if HostKey in m {
      assert m.Keys == base + {HostKey};
    } else {
      assert m.Keys == base;
    }
  }

  /** In any environment, setting the endpoint variable to the empty string
      is the same as leaving it unset, whereas an empty region variable is
      kept as an empty region where an unset one gives `us-east-1`. */
  lemma EmptyVariablesDiffer(env: Environment, tableName: string)
    ensures EndpointVar in env && env[EndpointVar] == [] ==>
      MetaFor(LoadConfig(env), tableName) == MetaFor(LoadConfig(env - {EndpointVar}), tableName)
    ensures RegionVar in env && env[RegionVar] == [] ==>
      && MetaFor(LoadConfig(env), tableName)[RegionKey] == []
      && MetaFor(LoadConfig(env - {RegionVar}), tableName)[RegionKey] == DefaultRegion != []
  {
  }
}
