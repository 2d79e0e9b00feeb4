/**
  The loaded `messages.yml` document, seen as what the resolver reads from it:
  every dotted path that holds a value, mapped to that value as a string.
 */
module Messages {

  type Config = map<string, string>

  /** `messages.getString(path, def)`: the value at `path`, or `def` when the path is absent. */
  function GetString(config: Config, path: string, def: string): (r: string)
    ensures path in config ==> r == config[path]
    ensures path !in config ==> r == def
  {
    if path in config then config[path] else def
  }
}
