/**
 The configuration lookup of `async_setup_entry`: a value set in the config
 entry's options takes precedence over the one in its data.
 */
module Setup {
  import opened Documents

  /** The settings a config entry resolves to. */
  datatype Config = Config(listId: string, sessionId: string)

  /**
   `entry.options.get(key, entry.data[key])`. The default `entry.data[key]`
   is evaluated before the lookup, so a key missing from the data fails the
   setup (`None`) even when the options carry it; otherwise the option wins.
   */
  function Lookup(options: map<string, string>, data: map<string, string>, key: string): (r: Option<string>)
    ensures r.Some? <==> key in data
    ensures key in data && key in options ==> r == Some(options[key])
    ensures key in data && key !in options ==> r == Some(data[key])
  {
    if key !in data then None
    else if key in options then Some(options[key])
    else Some(data[key])
  }

  /** Resolves `ica_list_id` and `session_id`; the setup fails when either is missing from the data. */
  function ResolveConfig(options: map<string, string>, data: map<string, string>): (r: Option<Config>)
    ensures r.Some? <==> "ica_list_id" in data && "session_id" in data
    ensures r.Some? ==> r.value.listId == (if "ica_list_id" in options then options["ica_list_id"] else data["ica_list_id"])
    ensures r.Some? ==> r.value.sessionId == (if "session_id" in options then options["session_id"] else data["session_id"])
  {
    var listId := Lookup(options, data, "ica_list_id");
    var sessionId := Lookup(options, data, "session_id");
    if listId.Some? && sessionId.Some? then Some(Config(listId.value, sessionId.value)) else None
  }

  /** Options only ever override: with no options the data is used as is. */
  lemma DataUsedWithoutOptions(data: map<string, string>)
    requires "ica_list_id" in data && "session_id" in data
    ensures ResolveConfig(map[], data) == Some(Config(data["ica_list_id"], data["session_id"]))
  {
  }
}
