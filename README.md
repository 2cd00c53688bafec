# dotenv-handler configuration core in Dafny

This project models the configuration resolution core of dotenv-handler, a small
TypeScript library.

`loadConfig(path, options)` works on one process-wide configuration object. It:

1. loads a `.env` file into the process environment;
2. copies every environment entry into the configuration object;
3. fills in `defaults` for keys whose value is absent or empty;
4. when `expand` is set, rewrites every `${NAME}` placeholder in place;
5. checks the `required` keys, then throws or warns with a fixed message.

`getConfig(key)` reads the object back. `src/validators.ts` holds the same filter,
policy and substitution as standalone pure functions.

The project has three files:

- `types.dfy` (module `Types`) holds the data shapes:
  - `ConfigMap` is a JavaScript string dictionary: a value map plus the keys in
    insertion order, which is the order `for-in` visits them in;
  - `ConfigOptions` holds the recognised options;
  - `IsMissing` is the "falsy" test (absent or `""`) used throughout.
- `validators.dfy` (module `Validators`) holds:
  - the required-key filter;
  - the missing-key policy and its message;
  - the global regular-expression substitution `/\${(\w+)}/g`, as a left-to-right
    scan into segments followed by a substitution that never rescans replaced text.
- `config.dfy` (module `Config`) models the pipeline in two layers:
  - pure functions say what each stage computes (`WithEnv`, `ApplyDefaults`,
    `ExpandAll`, `Resolve`, `Load`);
  - the class `ConfigStore` holds the mutable object (`keys`, `values`). Its
    methods run the source's loops and are proved equal to those functions.

Outside effects become parameters or results:

- Loading the file becomes an `EnvLoad` value: either "file absent", or the
  environment as it stands after the file was merged.
- A thrown `Error` becomes `Failed(...)`.
- A `console.warn` becomes a returned warning.

## Model

| member | source | states |
|---|---|---|
| Types.ConfigMap.Put | src/config.ts:11 | `config[key] = value`: afterwards `key` holds `value`, every other key keeps its presence and value, a key already present keeps its place and a new key is appended last; every key stays listed exactly once |
| Validators.ValidateConfig | src/validators.ts:3-5 | A key is reported iff it is in `required` and absent or empty in the configuration; the result is never longer than `required` |
| Validators.ValidateConfigAppend | src/validators.ts:4 | The filter distributes over concatenation, so reported keys keep their relative order from `required` |
| Validators.ValidateConfigCount | src/validators.ts:4 | Each missing key is reported as many times as it is required; a key with a value never is |
| Validators.HandleMissingKeys | src/validators.ts:7-14 | Nothing happens iff no key is missing; otherwise it throws iff `errorOnMissing` is not `false` (the default is true) and warns iff it is `false`, in both cases with `Missing required environment variables: ` followed by the keys joined by `, ` |
| Validators.MissingMessage | src/validators.ts:10 | The thrown or warned text; its properties are stated by `MissingMessageRoundTrip` (fixed prefix, then exactly the missing keys in order) and `HandleMissingKeys` |
| Validators.JoinKeys | src/validators.ts:10 | `keys.join(', ')` starts with the first key, and for non-empty keys it is empty exactly when there are no keys |
| Validators.MissingMessageRoundTrip | src/validators.ts:10 | The message starts with the fixed prefix, and splitting the rest at `, ` gives back exactly the missing keys in order (when no key contains a comma) |
| Validators.JoinSplitRoundTrip | src/validators.ts:10 | Splitting `keys.join(', ')` at `, ` returns the keys, for non-empty lists of comma-free keys |
| Validators.WordRun | src/validators.ts:17 | The greedy `\w+`: the length of the longest prefix of ASCII word characters |
| Validators.PlaceholderAt | src/validators.ts:17 | A reported match is a well-formed `${name}` at the start of the string |
| Validators.PlaceholderAtComplete | src/validators.ts:17 | Conversely, a string starting with `${name}` (name made of word characters) matches with exactly that name |
| Validators.Scan | src/validators.ts:17 | Every placeholder segment of the scan has a name the pattern accepts |
| Validators.ScanCutsFirstMatch | src/validators.ts:17 | The global scan cuts out the leftmost match: text before it where the pattern matches nowhere becomes one literal per character, the match becomes a placeholder segment with its name, and scanning resumes after the `}` |
| Validators.ScanCovers | src/validators.ts:17 | The scan's segments read back to the input string: nothing is lost or duplicated |
| Validators.Substitute | src/validators.ts:17-22 | The replacement callback over the scanned segments: a literal is copied, `${name}` becomes `Lookup(config, name)`; its properties are stated by `SubstituteKeeps`, `ExpandAfterPlaceholder` and `ExpandIsSinglePass` |
| Types.Lookup | src/validators.ts:18-21 | The entry for `name` when present, `''` otherwise; stated through `ExpandAfterPlaceholder` and `ExpandExampleUnknownName` (an absent name becomes nothing) |
| Validators.ExpandVariable | src/validators.ts:16-23 | `expandVariable`: a string in which the pattern matches at no position comes back unchanged; `ExpandAfterPlaceholder` and `ExpandNoMatchHead` give its value on every other input |
| Validators.ExpandWithoutOpener | src/validators.ts:16-23 | A string in which `$` is never followed by `{` is returned unchanged |
| Validators.ExpandKeepsEmptyBraces | src/validators.ts:17 | `${}` stays literal (the name must be non-empty) |
| Validators.ExpandKeepsNonWordName | src/validators.ts:17 | `${a-b}` stays literal (the name is word characters only) |
| Validators.ExpandKeepsUnclosed | src/validators.ts:17 | `${` followed by any well-formed name but no closing brace stays literal (the closing brace is required) |
| Validators.ExpandAfterPlaceholder | src/validators.ts:17-22 | `${name}` followed by any text becomes the entry for `name`, or nothing when the key is absent, followed by the expansion of that text |
| Validators.ExpandNoMatchHead | src/validators.ts:17 | Where the pattern does not match at the head (any character other than `$`, or a `$` starting no well-formed placeholder such as `$5` or `${}`), the head character is copied and scanning resumes at the next one |
| Validators.ExpandLiteralHead | src/validators.ts:17 | A leading character other than `$` is copied and scanning resumes at the next one |
| Validators.ExpandAfterLiteral | src/validators.ts:17 | Text without `$` is copied verbatim in front of the expansion of what follows it |
| Validators.ExpandLiteral | src/validators.ts:16-23 | Text without `$` expands to itself |
| Validators.ExpandLiteralThenPlaceholder | src/validators.ts:17-22 | `$`-free text, a placeholder and any rest: the text is kept, the placeholder replaced by its entry (or nothing), the rest expanded |
| Validators.ExpandIsSinglePass | src/validators.ts:17-20 | A lone placeholder becomes its entry verbatim; placeholders inside the replacement are not expanded again |
| Validators.ExpandExampleGreeting | tests/validators.test.ts:62-69 | `Hello, ${name}! Your age is ${age}.` with name John and age 30 gives `Hello, John! Your age is 30.` |
| Validators.ExpandExampleUnknownName | tests/validators.test.ts:72-77 | `Hello, ${name}!` with no `name` entry gives `Hello, !` |
| Validators.SubstituteKeeps | src/validators.ts:17-22 | A character that cannot be part of a placeholder, present in the scanned text, is present in the substituted text |
| Validators.ExpandKeepsLiteralChar | src/validators.ts:16-23 | Such a character survives expansion, so the expanded value is non-empty |
| Config.CopyEntries | src/config.ts:9-13 | The copy loop over keys `ks` keeps every key listed once, keeps the old keys as a prefix in order, and adds at most one key per copied entry |
| Config.Fresh | src/config.ts:9-13 | The keys a loop over `ks` appends; `FreshMembers` states its members and `CopyEntriesOrder` its role |
| Config.FreshMembers | src/config.ts:9-13 | A key is appended iff the loop visits it and the object did not already hold it |
| Config.CopyEntriesOrder | src/config.ts:9-13 | After the copy loop the keys are the old keys followed by the newly assigned keys, in the loop's order, each once |
| Config.CopyEntriesValues | src/config.ts:9-13 | After copying keys `ks`, each copied key holds the source's value, every other old entry is unchanged, and the old keys keep their order |
| Config.WithEnvOverwrites | src/config.ts:9-13 | Copying the environment yields the old values overridden by the environment's (`c + env`), with the old keys first and in order |
| Config.WithEnv | src/config.ts:9-13 | The copy of the environment; stated by `WithEnvOverwrites` (values `c + env`) and `WithEnvOrder` (key order) |
| Config.WithEnvOrder | src/config.ts:9-13 | The environment's new keys follow the old keys, in the environment's order |
| Config.FillDefaults | src/config.ts:45-49 | The defaults loop over keys `ks` keeps every key listed once, keeps the old keys as a prefix in order, and adds at most one key per default |
| Config.FillDefaultsValues | src/config.ts:45-49 | Filling defaults for keys `ks` writes `defaults[k]` exactly for keys of `ks` whose value is missing and leaves every other entry as it was |
| Config.FillDefaultsOrder | src/config.ts:45-49 | After the defaults loop the keys are the old keys followed by the keys given a default that were absent before, in the loop's order, each once |
| Config.ApplyDefaultsEffect | src/config.ts:44-50 | `setDefaults` writes `defaults[k]` iff `k` is a default key whose value is absent or empty; every other key is unchanged, no key moves, and the keys it adds follow the old ones in the defaults' order, each once |
| Config.FillDefaultsSettled | src/config.ts:46 | When every default key already has a non-empty value (or its default is empty), filling changes nothing |
| Config.ApplyDefaultsIdempotent | src/config.ts:44-50 | Applying the same defaults twice equals applying them once |
| Config.ApplyDefaults | src/config.ts:44-50 | `setDefaults(defaults)`; stated by `ApplyDefaultsEffect` (which keys get the default, key order), `ApplyDefaultsIdempotent` and `FillDefaultsSettled` |
| Types.IsMissing | src/validators.ts:4 | JavaScript's `!config[key]` on a string object: the key is absent or holds `''`; stated through `ValidateConfig` and `ApplyDefaultsEffect`, which also cover src/config.ts:46 |
| Config.ExpandEntries | src/config.ts:28-32 | The expansion loop adds, removes and moves no key: the key order and the set of keys with a value are unchanged |
| Config.ExpandEntriesUntouched | src/config.ts:28-32 | A key the pass has not visited keeps its value |
| Config.ExpandEntriesSplit | src/config.ts:28-32 | Running the pass over `a + b` is running it over `a`, then over `b` |
| Config.ExpandEntriesSplitAt | src/config.ts:28-32 | The pass over all keys is the pass over the first `i` keys followed by the pass over the rest |
| Config.ExpandAll | src/config.ts:27-33 | `expandConfig()` as one pass in key order; stated by `ExpandPassOrder`, `ExpandEntries` (no key moves), `ExpandAllKeepsPlain` and `ExpandAllKeepsLiteralChar` |
| Config.ExpandPassOrder | src/config.ts:27-42 | In-place order: each key's final value is its original value expanded against an object in which earlier keys already hold their final values and later keys still hold their originals |
| Config.ExpandPassLater | src/config.ts:28-32 | Before the `i`-th step, keys from position `i` on still hold their original values |
| Config.ExpandPassCurrent | src/config.ts:30 | The final value of the `i`-th key is its original value expanded against the object just before its step |
| Config.ExpandPassEarlier | src/config.ts:28-32 | Keys before position `i` already hold their final values when the `i`-th step runs |
| Config.ExpandAllKeepsPlain | src/config.ts:27-42 | A value without any placeholder match is unchanged by the expansion pass |
| Config.ExpandAllKeepsLiteralChar | src/config.ts:27-42 | A character outside placeholder syntax in a value survives the pass |
| Config.Resolve | src/config.ts:9-21 | The configuration after copy, defaults and optional expansion keeps every key listed once, with the keys it had before as a prefix in their old order |
| Config.Load | src/config.ts:6-25 | `loadConfig` never removes or reorders a key; a missing file fails with `FileNotFound` and leaves the configuration as it was; once the file is loaded the only failure is `MissingRequired` |
| Config.LoadWithoutOptions | src/config.ts:6 | `loadConfig(path)` with the default `options = {}` copies the environment in and returns without a warning |
| Config.ResolveKeepsEntries | src/config.ts:9-21 | Loading never removes or reorders existing keys; every old or environment key is present afterwards; without expansion a non-empty environment value is what remains |
| Config.ResolveOrder | src/config.ts:9-21 | After loading, the keys are the old keys, then the environment's new keys in its order, then the defaults' new keys in their order; expansion moves none |
| Config.RequiredKeys | src/config.ts:23 | `options.required \|\| []`; stated through `LoadMissingKeysOutcome` and `DefaultSatisfiesRequired` |
| Config.Report | src/config.ts:24 | How the missing-key policy ends the call (return, warn, or throw `MissingRequired`); stated by `LoadMissingKeysOutcome` and `Load` |
| Config.DefaultSatisfiesRequired | src/config.ts:15-23 | A required key the environment leaves missing but a non-empty default supplies is not reported, also with expansion when the default has a literal character |
| Config.LoadMissingKeysOutcome | src/config.ts:23-24 | Once the environment is loaded, the call fails iff a required key is missing in the final configuration and `errorOnMissing` is not `false`, with the message naming the missing keys; with `errorOnMissing` `false` it returns and warns iff a key is missing |
| Config.LoadAbsentFile | src/config.ts:7 | A missing file fails the call before the configuration is touched, with `The file <path> does not exist` |
| Config.ConfigError.Message | src/utils.ts:8 | The text of the thrown error; `LoadAbsentFile` states it for a missing file, `LoadMissingKeysOutcome` for missing keys |
| Config.LoadChainedExpansion | tests/config.test.ts:62-78 | With `EXPAND_KEY = expanded`, `EXPANDED_KEY = ${EXPAND_KEY}/key` and a default `EXPANDED_NEW_KEY = ${EXPANDED_KEY}:DEFAULT` (required), one expanding load yields `expanded/key` and `expanded/key:DEFAULT`, in key order, and succeeds silently |
| Config.ChainedLoadSetup | src/config.ts:9-17 | Copying two environment keys into an empty object and then a third default key lists the keys in that order with those values |
| Config.ChainedCopy | src/config.ts:9-13 | Copying a two-key environment into an empty object reproduces it |
| Config.ChainedPass | src/config.ts:27-42 | In a three-key chain each key sees the previous key already expanded |
| Config.ChainedPassFirst | src/config.ts:30 | A first value without `$` is unchanged by the pass |
| Config.ChainedPassNext | src/config.ts:30 | A value `${<previous key>}s` ends as the previous key's final value followed by `s` |
| Config.ConfigStore.constructor | src/config.ts:4 | The object starts empty |
| Config.ConfigStore.Set | src/config.ts:11 | `config[key] = value` updates the object as `Put` describes |
| Config.ConfigStore.GetConfig | src/config.ts:52-54 | The result is undefined exactly when the key is absent, and the stored value otherwise |
| Config.ConfigStore.CopyEnv | src/config.ts:9-13 | The copy loop leaves the object equal to `WithEnv` of its old state |
| Config.ConfigStore.SetDefaults | src/config.ts:44-50 | The defaults loop leaves the object equal to `ApplyDefaults` of its old state |
| Config.ConfigStore.ExpandConfig | src/config.ts:27-33 | The in-place expansion loop leaves the object equal to `ExpandAll` of its old state |
| Config.ConfigStore.LoadConfig | src/config.ts:6-25 | The object afterwards and the outcome are those of `Load` on the old state |

## Left out

- Loading the `.env` file is not part of this model. This covers `loadEnv`'s path
  resolution, the existence test and dotenv's parsing and merge into the process
  environment, including dotenv's rule that already-set variables are not
  overwritten. The model takes the outcome as an `EnvLoad` parameter: either the
  file is absent, or the environment as it stands afterwards.
- `saveConfig` and `saveEnv` (writing `KEY=value` lines to a file) are file output
  and are not modelled. The save-then-load round trip in tests/config.test.ts
  depends on dotenv's parser, which is also outside the model.
- `getEnv` and `setEnv` only read or write `process.env`. In the model the
  environment is a plain value passed to `LoadConfig`.
- The `validate` and `transformations` options are declared in src/types.ts, but
  `loadConfig` never reads them, and the model follows the code. The tests that
  expect a validator to throw, or a transformation to be applied
  (tests/config.test.ts:81-155), describe behaviour the code does not have.
- `console.warn` is output. The model returns the warning text in
  `Done(Some(message))` instead.
- The `Error` thrown by `loadEnv` or `handleMissingKeys` is modelled as a
  `Failed` result. Any partial update the object received before the throw is
  kept, as in the source.
- Several JavaScript object details are not modelled:
  - `name in config` and `!config[key]` also see inherited properties such as
    `constructor`;
  - `for-in` visits integer-like keys before other keys, in numeric order;
  - the model treats every key as an own key visited in insertion order.
- Validators.MissingMessageRoundTrip: the key list is recovered only when no key
  contains a comma, because `join(', ')` is ambiguous otherwise.
- Config.DefaultSatisfiesRequired: with expansion on, it needs the default to
  hold one character outside placeholder syntax. A default made only of
  placeholders can expand to the empty string and be reported.
- Config.LoadChainedExpansion is stated for a store that starts empty and an
  environment holding just the two chained keys. The test's environment also
  holds the other variables of its `.env` file. They are untouched by the pass
  (`ExpandAllKeepsPlain`), but the lemma does not cover them.
- The copies of `validateConfig` and `handleMissingKeys` in src/config.ts:60-71
  are identical to those in src/validators.ts, and both are modelled by
  `Validators.ValidateConfig` and `Validators.HandleMissingKeys`. The private
  `expandVariable` in src/config.ts:35-42 is `Validators.ExpandVariable` applied
  to the live object.
