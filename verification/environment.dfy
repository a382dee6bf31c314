/** `read_env` from the JSON value onward: the manifest's `environment`
    field decides which sides (dedicated server, game client) the mod is
    required on and which it does not support. */
module Environment {
  import opened Common

  /** How one side relates to a mod: "required" or "unsupported" in the index. */
  datatype Support = Required | Unsupported

  /** The `env` object of a file block, keyed by "server" and "client". */
  type EnvMap = map<string, Support>

  const BothRequired: EnvMap := map["server" := Required, "client" := Required]
  const ClientOnly: EnvMap := map["server" := Unsupported, "client" := Required]
  const ServerOnly: EnvMap := map["server" := Required, "client" := Unsupported]

  /** The three `environment` values the mapping recognises. */
  predicate Recognised(environment: Json)
  {
    environment == JString("*") || environment == JString("client") || environment == JString("server")
  }

  /** The support map for an `environment` value: both sides when it is
      `"*"`, one side when it names it, nothing at all for any other value. */
  function EnvFor(environment: Json): (m: EnvMap)
    ensures m.Keys == {} || m.Keys == {"server", "client"}
    ensures m.Keys == {} <==> !Recognised(environment)
    ensures "client" in m ==>
      (m["client"] == Required <==> environment == JString("*") || environment == JString("client"))
    ensures "server" in m ==>
      (m["server"] == Required <==> environment == JString("*") || environment == JString("server"))
  {
    assert "server" in BothRequired && "server" in ClientOnly && "server" in ServerOnly;
    if environment == JString("*") then BothRequired
    else if environment == JString("client") then ClientOnly
    else if environment == JString("server") then ServerOnly
    else map[]
  }

  /** Reads the support map back as the `environment` value it came from. */
  function EnvironmentOf(m: EnvMap): Option<string>
  {
    if m == BothRequired then Some("*")
    else if m == ClientOnly then Some("client")
    else if m == ServerOnly then Some("server")
    else None
  }

  /** The mapping loses nothing: a recognised value is recovered from its
      map, and every other value gives a map that recovers nothing. */
  lemma EnvRoundTrip(environment: Json)
    ensures EnvironmentOf(EnvFor(environment)) ==
      if Recognised(environment) then Some(environment.s) else None
  {
    assert BothRequired != ClientOnly && BothRequired != ServerOnly && ClientOnly != ServerOnly by {
      assert BothRequired["client"] != ServerOnly["client"];
      assert BothRequired["server"] != ClientOnly["server"];
      assert ClientOnly["client"] != ServerOnly["client"];
    }
  }

  /** Every map that reads back as a value is the map of that value; so a
      block's `env` is the empty map or one of exactly three maps. */
  lemma EnvInverse(m: EnvMap)
    ensures EnvironmentOf(m).Some? ==> EnvFor(JString(EnvironmentOf(m).value)) == m
  {
  }

  /** `jsonP['environment']` and the mapping: the manifest must be an object
      holding the key, or the script raises. */
  function ReadEnv(manifest: Json): (r: Result<EnvMap>)
    ensures r.Success? <==> manifest.JObject? && "environment" in manifest.fields
    ensures !manifest.JObject? ==> r == Failure(NotAnObject)
    ensures manifest.JObject? && "environment" !in manifest.fields ==> r == Failure(MissingKey("environment"))
    ensures r.Success? ==> r.value == EnvFor(manifest.fields["environment"])
  {
    match manifest
    case JObject(fields) =>
      if "environment" in fields then Success(EnvFor(fields["environment"]))
      else Failure(MissingKey("environment"))
    case _ => Failure(NotAnObject)
  }
}
