/**
 The resolution pipeline of src/config.ts: one process-wide configuration
 object, filled from the environment, completed with defaults, optionally
 expanded in place, then checked for required keys.

 The pure functions below say what each stage computes; the class
 `ConfigStore` holds the mutable object and its methods run the source's
 loops, each proved equal to the corresponding function.
 */
module Config {
  import opened Types
  import opened Validators

  /** The outcome of `loadEnv` (src/utils.ts), whose parsing is not modelled:
      either the file does not exist, or the process environment as it stands
      after the file was merged into it. */
  datatype EnvLoad = FileAbsent(path: string) | EnvLoaded(env: ConfigMap)

  datatype ConfigError =
    | FileNotFound(path: string)
    | MissingRequired(message: string)
  {
    /** The text of the thrown `Error`. */
    function Message(): string {
      match this
      case FileNotFound(path) => "The file " + path + " does not exist"
      case MissingRequired(message) => message
    }
  }

  /** `loadConfig` either returns, possibly after a warning, or throws. */
  datatype LoadResult = Done(warning: Option<string>) | Failed(error: ConfigError)

  // ---------------------------------------------------------------------
  // What each stage computes
  // ---------------------------------------------------------------------

  /** The copy loop: `config[key] = src[key]` for each key of `ks` in turn. */
  function CopyEntries(c: ConfigMap, src: ConfigMap, ks: seq<string>): (r: ConfigMap)
    requires c.Valid()
    requires forall i :: 0 <= i < |ks| ==> ks[i] in src.values
    ensures r.Valid()
    ensures c.keys <= r.keys && |r.keys| <= |c.keys| + |ks|
    decreases |ks|
  {
    if ks == [] then c
    else
      var k := ks[|ks| - 1];
      CopyEntries(c, src, ks[..|ks| - 1]).Put(k, src.values[k])
  }

  /** The keys of `ks` that `m` does not hold, each at its first occurrence,
      in the order of `ks`: the keys a loop over `ks` appends to the order. */
  function Fresh(m: map<string, string>, ks: seq<string>): (r: seq<string>)
    decreases |ks|
  {
    if ks == [] then []
    else
      var prev := Fresh(m, ks[..|ks| - 1]);
      var k := ks[|ks| - 1];
      if k in m || k in prev then prev else prev + [k]
  }

  /** Stage 2: every entry of the environment is copied into the
      configuration, in the environment's order. */
  function WithEnv(c: ConfigMap, env: ConfigMap): ConfigMap
    requires c.Valid() && env.Valid()
  {
    CopyEntries(c, env, env.keys)
  }

  /** The `setDefaults` loop: for each key of `ks` in turn, the default is
      written when the configuration's value for it is missing. */
  function FillDefaults(c: ConfigMap, defaults: ConfigMap, ks: seq<string>): (r: ConfigMap)
    requires c.Valid()
    requires forall i :: 0 <= i < |ks| ==> ks[i] in defaults.values
    ensures r.Valid()
    ensures c.keys <= r.keys && |r.keys| <= |c.keys| + |ks|
    decreases |ks|
  {
    if ks == [] then c
    else
      var prev := FillDefaults(c, defaults, ks[..|ks| - 1]);
      var k := ks[|ks| - 1];
      if IsMissing(prev.values, k) then prev.Put(k, defaults.values[k]) else prev
  }

  /** The fill over the first `i + 1` keys is the fill over the first `i`
      keys followed by the step for the `i`-th key. */
  lemma FillDefaultsStep(c: ConfigMap, defaults: ConfigMap, ks: seq<string>, i: nat)
    requires c.Valid() && i < |ks|
    requires forall j :: 0 <= j < |ks| ==> ks[j] in defaults.values
    ensures var prev := FillDefaults(c, defaults, ks[..i]);
      FillDefaults(c, defaults, ks[..i + 1]) ==
        if IsMissing(prev.values, ks[i]) then prev.Put(ks[i], defaults.values[ks[i]]) else prev
  {
    assert ks[..i + 1][..i] == ks[..i];
  }

  /** Stage 3: `setDefaults(defaults)`. */
  function ApplyDefaults(c: ConfigMap, defaults: ConfigMap): ConfigMap
    requires c.Valid() && defaults.Valid()
  {
    FillDefaults(c, defaults, defaults.keys)
  }

  /** The `expandConfig` loop: for each key of `ks` in turn, its value is
      replaced by its expansion against the configuration as it stands at that
      moment. No key is added, removed or moved. */
  function ExpandEntries(c: ConfigMap, ks: seq<string>): (r: ConfigMap)
    requires c.Valid()
    ensures r.Valid() && r.keys == c.keys && r.values.Keys == c.values.Keys
    decreases |ks|
  {
    if ks == [] then c
    else
      var prev := ExpandEntries(c, ks[..|ks| - 1]);
      var k := ks[|ks| - 1];
      if k in prev.values then prev.Put(k, ExpandVariable(prev.values[k], prev.values)) else prev
  }

  /** Stage 4: `expandConfig()`, one pass over the keys in their order. */
  function ExpandAll(c: ConfigMap): ConfigMap
    requires c.Valid()
  {
    ExpandEntries(c, c.keys)
  }

  /** `options.required || []`. */
  function RequiredKeys(options: ConfigOptions): seq<string> {
    if options.required.Some? then options.required.value else []
  }

  ghost predicate WellFormedOptions(options: ConfigOptions) {
    options.defaults.Some? ==> options.defaults.value.Valid()
  }

  /** Stages 2 to 4: the configuration `loadConfig` leaves behind once the
      environment has been loaded. */
  function Resolve(c: ConfigMap, env: ConfigMap, options: ConfigOptions): (r: ConfigMap)
    requires c.Valid() && env.Valid() && WellFormedOptions(options)
    ensures r.Valid() && c.keys <= r.keys
  {
    var copied := WithEnv(c, env);
    var filled := if options.defaults.Some? then ApplyDefaults(copied, options.defaults.value) else copied;
    if options.expand == Some(true) then ExpandAll(filled) else filled
  }

  /** How the missing-key policy ends the call. */
  function Report(h: Handled): LoadResult {
    match h
    case Silent => Done(None)
    case Warned(message) => Done(Some(message))
    case Thrown(message) => Failed(MissingRequired(message))
  }

  /** `loadConfig(path, options)` as a whole: the configuration afterwards and
      how the call ends. A file that does not exist stops the call before the
      configuration is touched; the missing-key check runs on the configuration
      after defaults and expansion, and a failure there leaves that
      configuration in place. */
  function Load(c: ConfigMap, load: EnvLoad, options: ConfigOptions): (r: (ConfigMap, LoadResult))
    requires c.Valid() && WellFormedOptions(options)
    requires load.EnvLoaded? ==> load.env.Valid()
    ensures r.0.Valid() && c.keys <= r.0.keys
    ensures load.FileAbsent? ==> r.0 == c && r.1.Failed? && r.1.error.FileNotFound?
    ensures r.1.Failed? && load.EnvLoaded? ==> r.1.error.MissingRequired?
  {
    match load
    case FileAbsent(path) => (c, Failed(FileNotFound(path)))
    case EnvLoaded(env) =>
      var resolved := Resolve(c, env, options);
      (resolved, Report(HandleMissingKeys(ValidateConfig(resolved.values, RequiredKeys(options)), options)))
  }

  // ---------------------------------------------------------------------
  // Copying the environment
  // ---------------------------------------------------------------------

  lemma {:induction false} CopyEntriesValues(c: ConfigMap, src: ConfigMap, ks: seq<string>)
    requires c.Valid()
    requires forall i :: 0 <= i < |ks| ==> ks[i] in src.values
    ensures var r := CopyEntries(c, src, ks);
      (forall k :: k in r.values <==> k in c.values || k in ks) &&
      (forall k :: k in ks ==> r.values[k] == src.values[k]) &&
      (forall k :: k in c.values && k !in ks ==> r.values[k] == c.values[k]) &&
      c.keys <= r.keys
    decreases |ks|
  {
    if ks != [] {
      var init := ks[..|ks| - 1];
      assert ks == init + [ks[|ks| - 1]];
      CopyEntriesValues(c, src, init);
    }
  }

  lemma {:induction false} FreshMembers(m: map<string, string>, ks: seq<string>, k: string)
    ensures k in Fresh(m, ks) <==> k !in m && k in ks
    decreases |ks|
  {
    if ks != [] {
      var init := ks[..|ks| - 1];
      assert ks == init + [ks[|ks| - 1]];
      FreshMembers(m, init, k);
    }
  }

  /** The copy loop appends the keys it adds at the end of the order, in the
      order of `ks`, each once: this is the order the expansion pass later
      visits them in. */
  lemma {:induction false} CopyEntriesOrder(c: ConfigMap, src: ConfigMap, ks: seq<string>)
    requires c.Valid()
    requires forall i :: 0 <= i < |ks| ==> ks[i] in src.values
    ensures CopyEntries(c, src, ks).keys == c.keys + Fresh(c.values, ks)
    decreases |ks|
  {
    if ks == [] {
      assert c.keys + [] == c.keys;
    } else {
      var init := ks[..|ks| - 1];
      var k := ks[|ks| - 1];
      CopyEntriesOrder(c, src, init);
      CopyEntriesValues(c, src, init);
      FreshMembers(c.values, init, k);
      var prev := CopyEntries(c, src, init);
      assert k in prev.values <==> k in c.values || k in Fresh(c.values, init);
      if k !in prev.values {
        assert prev.keys + [k] == c.keys + (Fresh(c.values, init) + [k]);
      }
    }
  }

  /** Every environment entry overwrites the configuration's entry for the same
      key; entries the environment does not mention (earlier defaults, say) are
      kept, and keys already present keep their place in the order. */
  lemma WithEnvOverwrites(c: ConfigMap, env: ConfigMap)
    requires c.Valid() && env.Valid()
    ensures WithEnv(c, env).values == c.values + env.values
    ensures c.keys <= WithEnv(c, env).keys
  {
    var r := WithEnv(c, env);
    var m := c.values + env.values;
    forall k ensures (k in r.values <==> k in m) && (k in m ==> r.values[k] == m[k]) {
      WithEnvAt(c, env, k);
    }
    assert r.values == m;
    assert c.keys <= r.keys by {
      CopyEntriesValues(c, env, env.keys);
    }
  }

  /** The environment's new keys follow the old ones, in the environment's
      order. */
  lemma WithEnvOrder(c: ConfigMap, env: ConfigMap)
    requires c.Valid() && env.Valid()
    ensures WithEnv(c, env).keys == c.keys + Fresh(c.values, env.keys)
  {
    CopyEntriesOrder(c, env, env.keys);
  }

  lemma WithEnvAt(c: ConfigMap, env: ConfigMap, k: string)
    requires c.Valid() && env.Valid()
    ensures var r := WithEnv(c, env);
      var m := c.values + env.values;
      (k in r.values <==> k in m) && (k in m ==> r.values[k] == m[k])
  {
    CopyEntriesValues(c, env, env.keys);
    assert k in env.values <==> k in env.keys;
  }

  // ---------------------------------------------------------------------
  // Defaults
  // ---------------------------------------------------------------------

  lemma {:induction false} FillDefaultsValues(c: ConfigMap, defaults: ConfigMap, ks: seq<string>)
    requires c.Valid()
    requires forall i :: 0 <= i < |ks| ==> ks[i] in defaults.values
    ensures var r := FillDefaults(c, defaults, ks);
      (forall k :: k in ks && IsMissing(c.values, k) ==> k in r.values && r.values[k] == defaults.values[k]) &&
      (forall k :: !(k in ks && IsMissing(c.values, k)) ==>
         (k in r.values <==> k in c.values) && (k in c.values ==> r.values[k] == c.values[k])) &&
      c.keys <= r.keys
    decreases |ks|
  {
    if ks != [] {
      var init := ks[..|ks| - 1];
      assert ks == init + [ks[|ks| - 1]];
      FillDefaultsValues(c, defaults, init);
    }
  }

  /** The defaults loop appends the keys it adds at the end of the order, in
      the order of `defaults`, each once. */
  lemma {:induction false} FillDefaultsOrder(c: ConfigMap, defaults: ConfigMap, ks: seq<string>)
    requires c.Valid()
    requires forall i :: 0 <= i < |ks| ==> ks[i] in defaults.values
    ensures FillDefaults(c, defaults, ks).keys == c.keys + Fresh(c.values, ks)
    decreases |ks|
  {
    if ks == [] {
      assert c.keys + [] == c.keys;
    } else {
      var init := ks[..|ks| - 1];
      var k := ks[|ks| - 1];
      FillDefaultsOrder(c, defaults, init);
      FillDefaultsValues(c, defaults, init);
      FreshMembers(c.values, init, k);
      var prev := FillDefaults(c, defaults, init);
      assert k in prev.values <==> k in c.values || k in Fresh(c.values, init);
      if k !in prev.values {
        assert prev.keys + [k] == c.keys + (Fresh(c.values, init) + [k]);
      }
    }
  }

  /** `setDefaults(d)` writes `d[k]` exactly where the configuration's value
      for `k` is absent or empty; every other key and value is unchanged. */
  lemma ApplyDefaultsEffect(c: ConfigMap, defaults: ConfigMap, k: string)
    requires c.Valid() && defaults.Valid()
    ensures var r := ApplyDefaults(c, defaults);
      if k in defaults.values && IsMissing(c.values, k) then
        k in r.values && r.values[k] == defaults.values[k]
      else
        (k in r.values <==> k in c.values) && (k in c.values ==> r.values[k] == c.values[k])
    ensures c.keys <= ApplyDefaults(c, defaults).keys
    ensures ApplyDefaults(c, defaults).keys == c.keys + Fresh(c.values, defaults.keys)
  {
    assert ApplyDefaults(c, defaults).keys == c.keys + Fresh(c.values, defaults.keys) by {
      FillDefaultsOrder(c, defaults, defaults.keys);
    }
    FillDefaultsValues(c, defaults, defaults.keys);
  }

  /** The configuration already holds, for each key of `ks`, either a
      non-empty value or that key's (empty) default. */
  ghost predicate Settled(c: ConfigMap, defaults: ConfigMap, ks: seq<string>)
    requires forall i :: 0 <= i < |ks| ==> ks[i] in defaults.values
  {
    forall i :: 0 <= i < |ks| ==>
      ks[i] in c.values && (c.values[ks[i]] != "" || defaults.values[ks[i]] == "")
  }

  lemma {:induction false} FillDefaultsSettled(c: ConfigMap, defaults: ConfigMap, ks: seq<string>)
    requires c.Valid()
    requires forall i :: 0 <= i < |ks| ==> ks[i] in defaults.values
    requires Settled(c, defaults, ks)
    ensures FillDefaults(c, defaults, ks) == c
    decreases |ks|
  {
    if ks != [] {
      var init := ks[..|ks| - 1];
      var k := ks[|ks| - 1];
      assert Settled(c, defaults, init) by {
        forall i | 0 <= i < |init| ensures init[i] == ks[i] { }
      }
      FillDefaultsSettled(c, defaults, init);
      assert k in c.values && (c.values[k] != "" || defaults.values[k] == "");
      if IsMissing(c.values, k) {
        assert c.values[k := defaults.values[k]] == c.values;
      }
    }
  }

  /** Applying the same defaults twice gives the same configuration as
      applying them once. */
  lemma ApplyDefaultsIdempotent(c: ConfigMap, defaults: ConfigMap)
    requires c.Valid() && defaults.Valid()
    ensures ApplyDefaults(ApplyDefaults(c, defaults), defaults) == ApplyDefaults(c, defaults)
  {
    var once := ApplyDefaults(c, defaults);
    forall i | 0 <= i < |defaults.keys|
      ensures defaults.keys[i] in once.values
      ensures once.values[defaults.keys[i]] != "" || defaults.values[defaults.keys[i]] == ""
    {
      ApplyDefaultsEffect(c, defaults, defaults.keys[i]);
    }
    FillDefaultsSettled(once, defaults, defaults.keys);
  }

  // ---------------------------------------------------------------------
  // Expansion
  // ---------------------------------------------------------------------

  lemma {:induction false} ExpandEntriesUntouched(c: ConfigMap, ks: seq<string>, k: string)
    requires c.Valid() && k in c.values && k !in ks
    ensures ExpandEntries(c, ks).values[k] == c.values[k]
    decreases |ks|
  {
    if ks != [] {
      var init := ks[..|ks| - 1];
      assert ks == init + [ks[|ks| - 1]];
      ExpandEntriesUntouched(c, init, k);
    }
  }

  /** Running the pass over `a + b` is running it over `a`, then over `b`. */
  lemma {:induction false} ExpandEntriesSplit(c: ConfigMap, a: seq<string>, b: seq<string>)
    requires c.Valid()
    ensures ExpandEntries(c, a + b) == ExpandEntries(ExpandEntries(c, a), b)
    decreases |b|
  {
    if b == [] {
      assert a + b == a;
    } else {
      var init := b[..|b| - 1];
      assert (a + b)[..|a + b| - 1] == a + init;
      assert (a + b)[|a + b| - 1] == b[|b| - 1];
      ExpandEntriesSplit(c, a, init);
    }
  }

  lemma ExpandEntriesSplitAt(c: ConfigMap, ks: seq<string>, i: nat)
    requires c.Valid() && i <= |ks|
    ensures ExpandEntries(c, ks) == ExpandEntries(ExpandEntries(c, ks[..i]), ks[i..])
  {
    assert ks[..i] + ks[i..] == ks;
    ExpandEntriesSplit(c, ks[..i], ks[i..]);
  }

  /** The order of the in-place pass. Let `before` be the configuration just
      before the `i`-th key is rewritten: the key's final value is its own
      original value expanded against `before`, in which every earlier key
      already holds its final (expanded) value and every later key, the
      `i`-th included, still holds its original value. */
  lemma ExpandPassOrder(c: ConfigMap, i: nat)
    requires c.Valid() && i < |c.keys|
    ensures var r := ExpandAll(c);
      var before := ExpandEntries(c, c.keys[..i]);
      var k := c.keys[i];
      k in c.values &&
      r.values[k] == ExpandVariable(c.values[k], before.values) &&
      (forall j :: 0 <= j < i ==> before.values[c.keys[j]] == r.values[c.keys[j]]) &&
      (forall j :: i <= j < |c.keys| ==> before.values[c.keys[j]] == c.values[c.keys[j]])
  {
    ExpandPassLater(c, i);
    ExpandPassCurrent(c, i);
    ExpandPassEarlier(c, i);
  }

  lemma ExpandPassLater(c: ConfigMap, i: nat)
    requires c.Valid() && i <= |c.keys|
    ensures forall j :: i <= j < |c.keys| ==>
      c.keys[j] in c.values && ExpandEntries(c, c.keys[..i]).values[c.keys[j]] == c.values[c.keys[j]]
  {
    var ks := c.keys;
    forall j | i <= j < |ks| ensures ks[j] in c.values && ExpandEntries(c, ks[..i]).values[ks[j]] == c.values[ks[j]] {
      DistinctOutside(ks, j, 0, i);
      ExpandEntriesUntouched(c, ks[..i], ks[j]);
    }
  }

  lemma ExpandPassCurrent(c: ConfigMap, i: nat)
    requires c.Valid() && i < |c.keys|
    ensures var before := ExpandEntries(c, c.keys[..i]);
      ExpandAll(c).values[c.keys[i]] == ExpandVariable(c.values[c.keys[i]], before.values)
  {
    var ks := c.keys;
    var k := ks[i];
    var before := ExpandEntries(c, ks[..i]);
    var after := ExpandEntries(c, ks[..i + 1]);
    ExpandPassLater(c, i);
    assert before.values[k] == c.values[k];
    ExpandEntriesLast(c, ks, i);
    assert after.values[k] == ExpandVariable(c.values[k], before.values);
    ExpandEntriesSplitAt(c, ks, i + 1);
    DistinctOutside(ks, i, i + 1, |ks|);
    ExpandEntriesUntouched(after, ks[i + 1..], k);
  }

  lemma ExpandPassEarlier(c: ConfigMap, i: nat)
    requires c.Valid() && i <= |c.keys|
    ensures var before := ExpandEntries(c, c.keys[..i]);
      forall j :: 0 <= j < i ==> before.values[c.keys[j]] == ExpandAll(c).values[c.keys[j]]
  {
    var before := ExpandEntries(c, c.keys[..i]);
    var after := ExpandAll(c);
    forall j | 0 <= j < i
      ensures before.values[c.keys[j]] == after.values[c.keys[j]]
    {
      ExpandPassEarlierAt(c, i, j);
    }
  }

  lemma ExpandPassEarlierAt(c: ConfigMap, i: nat, j: nat)
    requires c.Valid() && j < i <= |c.keys|
    ensures var before := ExpandEntries(c, c.keys[..i]);
      c.keys[j] in before.values && c.keys[j] in ExpandAll(c).values &&
      before.values[c.keys[j]] == ExpandAll(c).values[c.keys[j]]
  {
    var ks := c.keys;
    var before := ExpandEntries(c, ks[..i]);
    assert ks[j] in c.values;
    ExpandEntriesSplitAt(c, ks, i);
    DistinctOutside(ks, j, i, |ks|);
    ExpandEntriesUntouched(before, ks[i..], ks[j]);
  }

  /** In a list without repetitions, an element does not occur in a slice that
      leaves out its position. */
  lemma DistinctOutside(ks: seq<string>, j: nat, lo: nat, hi: nat)
    requires forall a, b :: 0 <= a < b < |ks| ==> ks[a] != ks[b]
    requires j < |ks| && lo <= hi <= |ks| && !(lo <= j < hi)
    ensures ks[j] !in ks[lo..hi]
  {
    forall m | 0 <= m < hi - lo ensures ks[lo..hi][m] != ks[j] {
      assert ks[lo..hi][m] == ks[lo + m];
    }
  }

  /** The pass over the first `i + 1` keys is the pass over the first `i`
      keys followed by the step for the `i`-th key. */
  lemma ExpandEntriesStep(c: ConfigMap, ks: seq<string>, i: nat)
    requires c.Valid() && i < |ks|
    ensures var prev := ExpandEntries(c, ks[..i]);
      ExpandEntries(c, ks[..i + 1]) ==
        if ks[i] in prev.values then prev.Put(ks[i], ExpandVariable(prev.values[ks[i]], prev.values)) else prev
  {
    assert ks[..i + 1][..i] == ks[..i];
  }

  /** The step for the `i`-th key rewrites it against the configuration as
      the earlier steps left it. */
  lemma ExpandEntriesLast(c: ConfigMap, ks: seq<string>, i: nat)
    requires c.Valid() && i < |ks| && ks[i] in c.values
    ensures var prev := ExpandEntries(c, ks[..i]);
      ExpandEntries(c, ks[..i + 1]).values[ks[i]] == ExpandVariable(prev.values[ks[i]], prev.values)
  {
    assert ks[..i + 1][..i] == ks[..i];
  }

  /** A value in which the pattern matches nowhere keeps its value through the
      expansion pass. */
  lemma ExpandAllKeepsPlain(c: ConfigMap, k: string)
    requires c.Valid() && k in c.values && NoPlaceholder(c.values[k])
    ensures ExpandAll(c).values[k] == c.values[k]
  {
    var i :| 0 <= i < |c.keys| && c.keys[i] == k;
    ExpandPassOrder(c, i);
  }

  // ---------------------------------------------------------------------
  // The pipeline
  // ---------------------------------------------------------------------

  /** Loading never removes a key: the keys already in the configuration and
      the environment's keys are all present afterwards, the old ones first and
      in their old order. Without expansion, an environment entry with a
      non-empty value is what the configuration holds afterwards. */
  lemma ResolveKeepsEntries(c: ConfigMap, env: ConfigMap, options: ConfigOptions, k: string)
    requires c.Valid() && env.Valid() && WellFormedOptions(options)
    ensures c.keys <= Resolve(c, env, options).keys
    ensures k in c.values || k in env.values ==> k in Resolve(c, env, options).values
    ensures options.expand != Some(true) && k in env.values && env.values[k] != "" ==>
              Resolve(c, env, options).values[k] == env.values[k]
  {
    var copied := WithEnv(c, env);
    WithEnvOverwrites(c, env);
    if options.defaults.Some? {
      ApplyDefaultsEffect(copied, options.defaults.value, k);
    }
  }

  /** Key order after a load: the old keys, then the environment's new keys
      in the environment's order, then the defaults' new keys in the defaults'
      order; expansion moves none of them. */
  lemma ResolveOrder(c: ConfigMap, env: ConfigMap, options: ConfigOptions)
    requires c.Valid() && env.Valid() && WellFormedOptions(options)
    ensures var copied := WithEnv(c, env);
      Resolve(c, env, options).keys ==
        c.keys + Fresh(c.values, env.keys)
        + (if options.defaults.Some? then Fresh(copied.values, options.defaults.value.keys) else [])
  {
    var copied := WithEnv(c, env);
    WithEnvOrder(c, env);
    if options.defaults.Some? {
      FillDefaultsOrder(copied, options.defaults.value, options.defaults.value.keys);
    } else {
      assert c.keys + Fresh(c.values, env.keys) + [] == copied.keys;
    }
  }

  /** The required check sees the configuration after defaults and expansion:
      a required key that the environment leaves unset but a non-empty default
      supplies is not reported, and with expansion on it is still not reported
      provided the default holds a character outside placeholder syntax (such
      as the `:` in `${EXPANDED_KEY}:DEFAULT`). */
  lemma DefaultSatisfiesRequired(c: ConfigMap, env: ConfigMap, options: ConfigOptions, k: string, ch: char)
    requires c.Valid() && env.Valid() && WellFormedOptions(options)
    requires IsMissing(WithEnv(c, env).values, k)
    requires options.defaults.Some? && k in options.defaults.value.values
    requires options.defaults.value.values[k] != ""
    requires options.expand == Some(true) ==>
               ch in options.defaults.value.values[k] && !IsPlaceholderChar(ch)
    ensures !IsMissing(Resolve(c, env, options).values, k)
    ensures k !in ValidateConfig(Resolve(c, env, options).values, RequiredKeys(options))
  {
    var copied := WithEnv(c, env);
    var filled := ApplyDefaults(copied, options.defaults.value);
    ApplyDefaultsEffect(copied, options.defaults.value, k);
    if options.expand == Some(true) {
      ExpandAllKeepsLiteralChar(filled, k, ch);
    }
  }

  /** A character outside placeholder syntax in a value survives the
      expansion pass, so that value does not become empty. */
  lemma ExpandAllKeepsLiteralChar(c: ConfigMap, k: string, ch: char)
    requires c.Valid() && k in c.values && ch in c.values[k] && !IsPlaceholderChar(ch)
    ensures k in ExpandAll(c).values && ch in ExpandAll(c).values[k]
  {
    var i :| 0 <= i < |c.keys| && c.keys[i] == k;
    ExpandPassCurrent(c, i);
    ExpandKeepsLiteralChar(c.values[k], ExpandEntries(c, c.keys[..i]).values, ch);
  }

  /** How `loadConfig` ends once the environment is loaded: it throws exactly
      when some required key is absent or empty and `errorOnMissing` is not
      false, with the message naming the missing keys in `required` order;
      with `errorOnMissing` false it returns, warning with the same message,
      and the keys stay missing. */
  lemma LoadMissingKeysOutcome(c: ConfigMap, env: ConfigMap, options: ConfigOptions)
    requires c.Valid() && env.Valid() && WellFormedOptions(options)
    ensures var final := Load(c, EnvLoaded(env), options).0;
      var r := Load(c, EnvLoaded(env), options).1;
      var missing := ValidateConfig(final.values, RequiredKeys(options));
      final == Resolve(c, env, options) &&
      (r.Failed? <==> options.errorOnMissing != Some(false) &&
                      exists k :: k in RequiredKeys(options) && IsMissing(final.values, k)) &&
      (r.Failed? ==> r.error == MissingRequired(MissingMessage(missing))) &&
      (options.errorOnMissing == Some(false) ==>
         r.Done? &&
         (r.warning.Some? <==> exists k :: k in RequiredKeys(options) && IsMissing(final.values, k)) &&
         (r.warning.Some? ==> r.warning.value == MissingMessage(missing)))
  {
    var final := Resolve(c, env, options);
    var missing := ValidateConfig(final.values, RequiredKeys(options));
    if missing != [] {
      assert missing[0] in RequiredKeys(options) && IsMissing(final.values, missing[0]);
    }
  }

  /** A file that does not exist makes `loadConfig` fail before anything else
      happens: the configuration is unchanged and the error names the path,
      whatever the options. */
  lemma LoadAbsentFile(c: ConfigMap, path: string, options: ConfigOptions)
    requires c.Valid() && WellFormedOptions(options)
    ensures Load(c, FileAbsent(path), options).0 == c
    ensures Load(c, FileAbsent(path), options).1.Failed?
    ensures Load(c, FileAbsent(path), options).1.error.Message() == "The file " + path + " does not exist"
  {
  }

  /** `loadConfig(path)` with the default `options = {}`: the environment is
      copied in, nothing is required, and the call returns without a
      warning. */
  lemma LoadWithoutOptions(c: ConfigMap, env: ConfigMap)
    requires c.Valid() && env.Valid()
    ensures Load(c, EnvLoaded(env), NoOptions) == (WithEnv(c, env), Done(None))
  {
  }

  /** A chain of references resolved by one pass, as in the expansion test
      of the loader: with `a = EXPAND_KEY`, `b = EXPANDED_KEY`,
      `n = EXPANDED_NEW_KEY`, the environment holds `a = "expanded"` and
      `b = "${EXPAND_KEY}/key"`, and the default for the required key `n` is
      `"${EXPANDED_KEY}:DEFAULT"`. Because the pass visits `a`, `b`, `n` in
      that order and `n` sees `b` already expanded, `n` ends as
      `"expanded/key:DEFAULT"`, and the call succeeds without a warning. */
  lemma LoadChainedExpansion(a: string, b: string, n: string, va: string, sb: string, sn: string)
    requires IsName(a) && IsName(b) && a != b && n != a && n != b
    requires '$' !in va && '$' !in sb && '$' !in sn && sn != ""
    ensures var env := ConfigMap([a, b], map[a := va, b := "${" + a + "}" + sb]);
      var defaults := ConfigMap([n], map[n := "${" + b + "}" + sn]);
      var options := ConfigOptions(Some(defaults), Some([n]), None, Some(true));
      var final := Load(EmptyConfig, EnvLoaded(env), options).0;
      Load(EmptyConfig, EnvLoaded(env), options).1 == Done(None) &&
      final.keys == [a, b, n] &&
      final.values == map[a := va, b := va + sb, n := va + sb + sn]
  {
    var env := ConfigMap([a, b], map[a := va, b := "${" + a + "}" + sb]);
    var defaults := ConfigMap([n], map[n := "${" + b + "}" + sn]);
    var options := ConfigOptions(Some(defaults), Some([n]), None, Some(true));
    ChainedLoadSetup(a, b, n, va, "${" + a + "}" + sb, "${" + b + "}" + sn);
    ChainedPass(a, b, n, va, sb, sn);
    var final := Resolve(EmptyConfig, env, options);
    assert final.values[n] != "";
    assert ValidateConfig(final.values, [n]) == [];
  }

  /** Copying `a`, `b` into an empty configuration, then the default for `n`,
      lists the keys in the order `a`, `b`, `n`. */
  lemma ChainedLoadSetup(a: string, b: string, n: string, va: string, vb: string, vn: string)
    requires a != b && n != a && n != b
    ensures var env := ConfigMap([a, b], map[a := va, b := vb]);
      var defaults := ConfigMap([n], map[n := vn]);
      env.Valid() && defaults.Valid() &&
      ApplyDefaults(WithEnv(EmptyConfig, env), defaults) == ConfigMap([a, b, n], map[a := va, b := vb, n := vn])
  {
    var env := ConfigMap([a, b], map[a := va, b := vb]);
    var defaults := ConfigMap([n], map[n := vn]);
    ChainedCopy(a, b, va, vb);
    assert defaults.Valid();
    var copied := ConfigMap([a, b], env.values);
    assert [n][..0] == [];
    assert FillDefaults(copied, defaults, []) == copied;
    assert ApplyDefaults(copied, defaults) == copied.Put(n, vn);
  }

  lemma ChainedCopy(a: string, b: string, va: string, vb: string)
    requires a != b
    ensures var env := ConfigMap([a, b], map[a := va, b := vb]);
      env.Valid() && WithEnv(EmptyConfig, env) == env
  {
    var env := ConfigMap([a, b], map[a := va, b := vb]);
    assert env.Valid();
    assert [a, b][..1] == [a] && [a][..0] == [];
    assert CopyEntries(EmptyConfig, env, []) == EmptyConfig;
    var one := CopyEntries(EmptyConfig, env, [a]);
    assert one == EmptyConfig.Put(a, va);
    assert one == ConfigMap([a], map[a := va]);
    assert WithEnv(EmptyConfig, env) == one.Put(b, vb);
  }

  /** The pass over `a`, `b`, `n`: `b` sees `a` already expanded, and `n`
      sees `b` already expanded. */
  lemma ChainedPass(a: string, b: string, n: string, va: string, sb: string, sn: string)
    requires IsName(a) && IsName(b) && a != b && n != a && n != b
    requires '$' !in va && '$' !in sb && '$' !in sn
    ensures var filled := ConfigMap([a, b, n], map[a := va, b := "${" + a + "}" + sb, n := "${" + b + "}" + sn]);
      filled.Valid() &&
      ExpandAll(filled).keys == [a, b, n] &&
      ExpandAll(filled).values == map[a := va, b := va + sb, n := va + sb + sn]
  {
    var filled := ConfigMap([a, b, n], map[a := va, b := "${" + a + "}" + sb, n := "${" + b + "}" + sn]);
    ChainedPassFirst(filled, va);
    ChainedPassNext(filled, 1, va, sb);
    ChainedPassNext(filled, 2, va + sb, sn);
    var final := ExpandAll(filled);
    assert final.values.Keys == {a, b, n};
  }

  lemma ChainedPassFirst(c: ConfigMap, v: string)
    requires c.Valid() && |c.keys| > 0 && c.values[c.keys[0]] == v && '$' !in v
    ensures ExpandAll(c).values[c.keys[0]] == v
  {
    ExpandPassCurrent(c, 0);
    ExpandAfterLiteral(v, "", ExpandEntries(c, c.keys[..0]).values);
    assert v + "" == v;
  }

  /** The `i`-th key holds `${<key i-1>}` followed by text `s`, and the key
      before it expands to `prev`: the `i`-th key expands to `prev + s`. */
  lemma ChainedPassNext(c: ConfigMap, i: nat, prev: string, s: string)
    requires c.Valid() && 0 < i < |c.keys| && IsName(c.keys[i - 1]) && '$' !in s
    requires c.values[c.keys[i]] == "${" + c.keys[i - 1] + "}" + s
    requires ExpandAll(c).values[c.keys[i - 1]] == prev
    ensures ExpandAll(c).values[c.keys[i]] == prev + s
  {
    ExpandPassCurrent(c, i);
    ExpandPassEarlier(c, i);
    var before := ExpandEntries(c, c.keys[..i]);
    ExpandAfterPlaceholder(c.keys[i - 1], s, before.values);
    ExpandAfterLiteral(s, "", before.values);
    assert s + "" == s;
  }

  // ---------------------------------------------------------------------
  // The process-wide configuration object
  // ---------------------------------------------------------------------

  /** `const config: Config = {}` and the functions that update it. */
  class ConfigStore {
    var keys: seq<string>
    var values: map<string, string>

    ghost predicate Valid()
      reads this
    {
      Snapshot().Valid()
    }

    function Snapshot(): ConfigMap
      reads this
    {
      ConfigMap(keys, values)
    }

    /** The object starts empty. */
    constructor ()
      ensures Valid() && Snapshot() == EmptyConfig
    {
      keys := [];
      values := map[];
    }

    /** `config[key] = value`. */
    method Set(key: string, value: string)
      requires Valid()
      modifies this
      ensures Valid()
      ensures Snapshot() == old(Snapshot()).Put(key, value)
    {
      if key !in values {
        keys := keys + [key];
      }
      values := values[key := value];
    }

    /** `getConfig(key)`: the value, or nothing when the key is absent. */
    function GetConfig(key: string): (r: Option<string>)
      requires Valid()
      reads this
      ensures r.None? <==> key !in keys
      ensures r.Some? ==> key in values && r.value == values[key]
    {
      if key in values then Some(values[key]) else None
    }

    /** The copy loop of `loadConfig`: every own key of the environment, in
        order. */
    method CopyEnv(env: ConfigMap)
      requires Valid() && env.Valid()
      modifies this
      ensures Valid()
      ensures Snapshot() == WithEnv(old(Snapshot()), env)
    {
      for i := 0 to |env.keys|
        invariant Valid()
        invariant Snapshot() == CopyEntries(old(Snapshot()), env, env.keys[..i])
      {
        var key := env.keys[i];
        assert env.keys[..i + 1][..i] == env.keys[..i];
        Set(key, env.values[key]);
      }
      assert env.keys[..|env.keys|] == env.keys;
    }

    /** `setDefaults(defaults)`. */
    method SetDefaults(defaults: ConfigMap)
      requires Valid() && defaults.Valid()
      modifies this
      ensures Valid()
      ensures Snapshot() == ApplyDefaults(old(Snapshot()), defaults)
    {
      for i := 0 to |defaults.keys|
        invariant Valid()
        invariant Snapshot() == FillDefaults(old(Snapshot()), defaults, defaults.keys[..i])
      {
        var key := defaults.keys[i];
        FillDefaultsStep(old(Snapshot()), defaults, defaults.keys, i);
        if IsMissing(values, key) {
          Set(key, defaults.values[key]);
        }
      }
      assert defaults.keys[..|defaults.keys|] == defaults.keys;
    }

    /** `expandConfig()`: rewrites each value in place, in key order, against
        the object as it stands at that moment. */
    method ExpandConfig()
      requires Valid()
      modifies this
      ensures Valid()
      ensures Snapshot() == ExpandAll(old(Snapshot()))
    {
      var ks := keys;
      for i := 0 to |ks|
        invariant Valid()
        invariant Snapshot() == ExpandEntries(old(Snapshot()), ks[..i])
      {
        var key := ks[i];
        ExpandEntriesStep(old(Snapshot()), ks, i);
        if key in values {
          Set(key, ExpandVariable(values[key], values));
        }
      }
      assert ks[..|ks|] == ks;
    }

    /** `loadConfig(path, options)`. */
    method LoadConfig(load: EnvLoad, options: ConfigOptions) returns (r: LoadResult)
      requires Valid() && WellFormedOptions(options)
      requires load.EnvLoaded? ==> load.env.Valid()
      modifies this
      ensures Valid()
      ensures (Snapshot(), r) == Load(old(Snapshot()), load, options)
    {
      if load.FileAbsent? {
        return Failed(FileNotFound(load.path));
      }
      CopyEnv(load.env);
      if options.defaults.Some? {
        SetDefaults(options.defaults.value);
      }
      if options.expand == Some(true) {
        ExpandConfig();
      }
      var missingKeys := ValidateConfig(values, RequiredKeys(options));
      r := Report(HandleMissingKeys(missingKeys, options));
    }
  }
}
