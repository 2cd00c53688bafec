/**
 The data shapes of the configuration loader (src/types.ts): a string
 dictionary `Config`, the options record `ConfigOptions`, and the "falsy"
 rule that the whole loader uses to decide whether a key has a value.
 */
module Types {

  datatype Option<+T> = None | Some(value: T)

  /** A JavaScript object used as a string dictionary (`Config`): the value of
      each key, and the keys in insertion order, which is the order a `for-in`
      loop visits them in. */
  datatype ConfigMap = ConfigMap(keys: seq<string>, values: map<string, string>) {

    /** Every key is listed exactly once, and the listed keys are the keys that
        have a value. */
    ghost predicate Valid() {
      (forall i, j :: 0 <= i < j < |keys| ==> keys[i] != keys[j]) &&
      (forall k :: k in values <==> k in keys)
    }

    /** `obj[key] = value`: a new key goes to the end of the order, an existing
        key keeps its place and only its value changes. */
    function Put(key: string, value: string): (r: ConfigMap)
      requires Valid()
      ensures r.Valid()
      ensures key in r.values && r.values[key] == value
      ensures forall k :: k != key ==>
        (k in r.values <==> k in values) && (k in values ==> r.values[k] == values[k])
      ensures r.keys == if key in values then keys else keys + [key]
    {
      ConfigMap(if key in values then keys else keys + [key], values[key := value])
    }
  }

  const EmptyConfig: ConfigMap := ConfigMap([], map[])

  /** The recognised fields of `ConfigOptions`. `validate` and
      `transformations` are declared by the source but never read by the
      loader, so they are not modelled. */
  datatype ConfigOptions = ConfigOptions(
    defaults: Option<ConfigMap>,
    required: Option<seq<string>>,
    errorOnMissing: Option<bool>,
    expand: Option<bool>)

  const NoOptions: ConfigOptions := ConfigOptions(None, None, None, None)

  /** `!config[key]`: the key is absent, or its value is the empty string
      (the only falsy string). */
  predicate IsMissing(config: map<string, string>, key: string) {
    key !in config || config[key] == ""
  }

  /** The value a `${name}` placeholder is replaced by: the entry if present,
      the empty string otherwise. */
  function Lookup(config: map<string, string>, name: string): string {
    if name in config then config[name] else ""
  }
}
