/**
 The pure helpers of the loader (src/validators.ts): the required-key filter,
 the missing-key policy, and the single-pass `${NAME}` substitution.
 */
module Validators {
  import opened Types

  // ---------------------------------------------------------------------
  // Required keys
  // ---------------------------------------------------------------------

  /** `required.filter(key => !config[key])`: the required keys that have no
      value, in the order of `required`, duplicates included. */
  function ValidateConfig(config: map<string, string>, required: seq<string>): (missing: seq<string>)
    ensures |missing| <= |required|
    ensures forall k :: k in missing <==> k in required && IsMissing(config, k)
  {
    if required == [] then []
    else
      (if IsMissing(config, required[0]) then [required[0]] else [])
      + ValidateConfig(config, required[1..])
  }

  /** Filtering distributes over concatenation, so the missing keys keep the
      relative order they have in `required`. */
  lemma {:induction false} ValidateConfigAppend(config: map<string, string>, a: seq<string>, b: seq<string>)
    ensures ValidateConfig(config, a + b) == ValidateConfig(config, a) + ValidateConfig(config, b)
  {
    if a == [] {
      assert a + b == b;
    } else {
      HeadTail(a, b);
      ValidateConfigAppend(config, a[1..], b);
      var m := ValidateConfig(config, a[1..]) + ValidateConfig(config, b);
      var h := if IsMissing(config, a[0]) then [a[0]] else [];
      assert h + m == (h + ValidateConfig(config, a[1..])) + ValidateConfig(config, b);
    }
  }

  lemma HeadTail<T>(a: seq<T>, b: seq<T>)
    requires a != []
    ensures (a + b)[0] == a[0] && (a + b)[1..] == a[1..] + b
  {
  }

  /** Each missing key occurs in the result as often as it occurs in
      `required`; a key with a value never occurs. */
  lemma {:induction false} ValidateConfigCount(config: map<string, string>, required: seq<string>, k: string)
    ensures multiset(ValidateConfig(config, required))[k] ==
            if IsMissing(config, k) then multiset(required)[k] else 0
  {
    if required != [] {
      assert required == [required[0]] + required[1..];
      ValidateConfigCount(config, required[1..], k);
    }
  }

  // ---------------------------------------------------------------------
  // Missing-key policy
  // ---------------------------------------------------------------------

  const MissingPrefix: string := "Missing required environment variables: "

  /** `keys.join(', ')`. */
  function JoinKeys(keys: seq<string>): (r: string)
    ensures keys != [] ==> keys[0] <= r
    ensures (forall i :: 0 <= i < |keys| ==> keys[i] != []) ==> (r == [] <==> keys == [])
  {
    if keys == [] then ""
    else if |keys| == 1 then keys[0]
    else keys[0] + ", " + JoinKeys(keys[1..])
  }

  /** The message reported for a non-empty list of missing keys. */
  function MissingMessage(missingKeys: seq<string>): string {
    MissingPrefix + JoinKeys(missingKeys)
  }

  /** What `handleMissingKeys` does: nothing, a `console.warn` of the message,
      or a thrown `Error` carrying the message. */
  datatype Handled = Silent | Warned(message: string) | Thrown(message: string)

  /** `handleMissingKeys`: `errorOnMissing` defaults to true when the option
      is not given. */
  function HandleMissingKeys(missingKeys: seq<string>, options: ConfigOptions): (r: Handled)
    ensures r == Silent <==> missingKeys == []
    ensures r.Thrown? <==> missingKeys != [] && options.errorOnMissing != Some(false)
    ensures r.Warned? <==> missingKeys != [] && options.errorOnMissing == Some(false)
    ensures !r.Silent? ==> r.message == MissingMessage(missingKeys)
  {
    var errorOnMissing := if options.errorOnMissing.Some? then options.errorOnMissing.value else true;
    if |missingKeys| > 0 then
      var message := MissingMessage(missingKeys);
      if errorOnMissing then Thrown(message) else Warned(message)
    else
      Silent
  }

  /** Splits a string at every ", ": the inverse of `JoinKeys` for keys that
      contain no comma. */
  function SplitKeys(s: string): (keys: seq<string>)
    ensures |keys| >= 1
    decreases |s|
  {
    if s == [] then [""]
    else if |s| >= 2 && s[0] == ',' && s[1] == ' ' then [""] + SplitKeys(s[2..])
    else
      var rest := SplitKeys(s[1..]);
      [[s[0]] + rest[0]] + rest[1..]
  }

  /** The key list a missing-key message names. */
  function KeysOfMessage(message: string): seq<string>
    requires MissingPrefix <= message
  {
    SplitKeys(message[|MissingPrefix|..])
  }

  lemma {:induction false} SplitKeysSingle(k: string)
    requires ',' !in k
    ensures SplitKeys(k) == [k]
  {
    if k != [] {
      SplitKeysSingle(k[1..]);
      assert [k[0]] + k[1..] == k;
    }
  }

  lemma {:induction false} SplitKeysAfterKey(k: string, t: string)
    requires ',' !in k
    ensures SplitKeys(k + ", " + t) == [k] + SplitKeys(t)
  {
    var s := k + ", " + t;
    if k == [] {
      assert s == ", " + t && s[2..] == t;
    } else {
      assert s[0] == k[0] && s[1..] == k[1..] + ", " + t;
      SplitKeysAfterKey(k[1..], t);
      assert [k[0]] + k[1..] == k;
    }
  }

  /** Joining then splitting gives the keys back: the message lists exactly the
      missing keys, in order. */
  lemma {:induction false} JoinSplitRoundTrip(keys: seq<string>)
    requires keys != []
    requires forall i :: 0 <= i < |keys| ==> ',' !in keys[i]
    ensures SplitKeys(JoinKeys(keys)) == keys
  {
    if |keys| == 1 {
      SplitKeysSingle(keys[0]);
    } else {
      JoinSplitRoundTrip(keys[1..]);
      SplitKeysAfterKey(keys[0], JoinKeys(keys[1..]));
      assert [keys[0]] + keys[1..] == keys;
    }
  }

  /** The message starts with the fixed prefix, and when no key contains a
      comma the rest of it names exactly the given keys in order. */
  lemma MissingMessageRoundTrip(keys: seq<string>)
    requires keys != []
    ensures MissingPrefix <= MissingMessage(keys)
    ensures (forall i :: 0 <= i < |keys| ==> ',' !in keys[i]) ==>
              KeysOfMessage(MissingMessage(keys)) == keys
  {
    var m := MissingMessage(keys);
    assert m[..|MissingPrefix|] == MissingPrefix;
    assert m[|MissingPrefix|..] == JoinKeys(keys);
    if forall i :: 0 <= i < |keys| ==> ',' !in keys[i] {
      JoinSplitRoundTrip(keys);
    }
  }

  // ---------------------------------------------------------------------
  // `${NAME}` expansion: value.replace(/\${(\w+)}/g, ...)
  // ---------------------------------------------------------------------

  /** `\w`: an ASCII letter, digit or underscore. */
  predicate IsWordChar(c: char) {
    'A' <= c <= 'Z' || 'a' <= c <= 'z' || '0' <= c <= '9' || c == '_'
  }

  /** A name the pattern accepts: one or more word characters. */
  predicate IsName(s: string) {
    |s| >= 1 && forall i :: 0 <= i < |s| ==> IsWordChar(s[i])
  }

  /** A character that can occur in the text of a placeholder. */
  predicate IsPlaceholderChar(c: char) {
    c == '$' || c == '{' || c == '}' || IsWordChar(c)
  }

  /** Length of the longest prefix of word characters (the greedy `\w+`). */
  function WordRun(s: string): (n: nat)
    ensures n <= |s|
    ensures forall i :: 0 <= i < n ==> IsWordChar(s[i])
    ensures n < |s| ==> !IsWordChar(s[n])
  {
    if s != [] && IsWordChar(s[0]) then 1 + WordRun(s[1..]) else 0
  }

  /** The name of the placeholder the pattern matches at the start of `s`, if
      any: `${`, a maximal non-empty run of word characters, then `}`. */
  function PlaceholderAt(s: string): (name: Option<string>)
    ensures name.Some? ==> IsName(name.value) && "${" + name.value + "}" <= s
  {
    if |s| >= 2 && s[0] == '$' && s[1] == '{' then
      var n := WordRun(s[2..]);
      if 0 < n && 2 + n < |s| && s[2 + n] == '}' then
        assert s[..n + 3] == "${" + s[2..2 + n] + "}";
        Some(s[2..2 + n])
      else None
    else None
  }

  lemma {:induction false} WordRunExact(s: string, n: nat)
    requires n <= |s|
    requires forall i :: 0 <= i < n ==> IsWordChar(s[i])
    requires n < |s| ==> !IsWordChar(s[n])
    ensures WordRun(s) == n
  {
    if n > 0 {
      WordRunExact(s[1..], n - 1);
    }
  }

  /** The converse of `PlaceholderAt`'s contract: whenever `s` starts with a
      well-formed placeholder, that placeholder is the match. */
  lemma PlaceholderAtComplete(s: string, name: string)
    requires IsName(name) && "${" + name + "}" <= s
    ensures PlaceholderAt(s) == Some(name)
  {
    var p := "${" + name + "}";
    assert s[2..2 + |name|] == p[2..2 + |name|] == name;
    assert s[2 + |name|] == p[2 + |name|] == '}';
    WordRunExact(s[2..], |name|);
  }

  /** The pieces the global pattern cuts a string into, left to right. */
  datatype Segment = Literal(c: char) | Placeholder(name: string)

  function SegmentText(g: Segment): string {
    match g
    case Literal(c) => [c]
    case Placeholder(name) => "${" + name + "}"
  }

  function Text(segs: seq<Segment>): string {
    if segs == [] then "" else SegmentText(segs[0]) + Text(segs[1..])
  }

  lemma TextCons(g: Segment, segs: seq<Segment>)
    ensures Text([g] + segs) == SegmentText(g) + Text(segs)
  {
    assert ([g] + segs)[1..] == segs;
  }

  /** The regular-expression scan: at each position either a placeholder
      matches (and scanning resumes after its `}`) or one character is kept
      and scanning resumes at the next one. The segments cover the input
      exactly (`ScanCovers`), and every placeholder carries a well-formed
      name. */
  function Scan(s: string): (segs: seq<Segment>)
    ensures WellFormed(segs)
    decreases |s|
  {
    if s == [] then []
    else
      match PlaceholderAt(s)
      case Some(name) =>
        [Placeholder(name)] + Scan(s[|name| + 3..])
      case None =>
        [Literal(s[0])] + Scan(s[1..])
  }

  /** Reading the segments back gives the scanned string: nothing is lost or
      duplicated. */
  lemma {:induction false} ScanCovers(s: string)
    ensures Text(Scan(s)) == s
    decreases |s|
  {
    if s != [] {
      match PlaceholderAt(s)
      case Some(name) =>
        var p := "${" + name + "}";
        ScanCovers(s[|p|..]);
        TextCons(Placeholder(name), Scan(s[|p|..]));
        PrefixSplit(p, s);
      case None =>
        ScanCovers(s[1..]);
        TextCons(Literal(s[0]), Scan(s[1..]));
        PrefixSplit([s[0]], s);
    }
  }

  lemma PrefixSplit(p: string, s: string)
    requires p <= s
    ensures s == p + s[|p|..]
  {
  }

  /** One literal segment per character. */
  function Literals(t: string): (segs: seq<Segment>)
    ensures |segs| == |t|
    ensures forall i :: 0 <= i < |t| ==> segs[i] == Literal(t[i])
  {
    if t == [] then [] else [Literal(t[0])] + Literals(t[1..])
  }

  /** The scan cuts out the leftmost match: text before it in which the
      pattern matches at no position becomes literals, the match becomes a
      placeholder segment, and scanning resumes after its `}`. */
  lemma {:induction false} ScanCutsFirstMatch(t: string, name: string, rest: string)
    requires IsName(name)
    requires forall i :: 0 <= i < |t| ==> PlaceholderAt((t + "${" + name + "}" + rest)[i..]) == None
    ensures Scan(t + "${" + name + "}" + rest) == Literals(t) + [Placeholder(name)] + Scan(rest)
    decreases |t|
  {
    var s := t + "${" + name + "}" + rest;
    if t == [] {
      assert s == "${" + name + "}" + rest;
      PlaceholderAtComplete(s, name);
      assert s[|name| + 3..] == rest;
    } else {
      ScanCutsShift(t, name, rest);
      ScanCutsFirstMatch(t[1..], name, rest);
      ScanLiteralHead(s);
      LiteralsCons(t, [Placeholder(name)] + Scan(rest));
    }
  }

  /** The hypothesis of `ScanCutsFirstMatch` carries over to the text after
      the first character, and the head does not match. */
  lemma ScanCutsShift(t: string, name: string, rest: string)
    requires t != []
    requires forall i :: 0 <= i < |t| ==> PlaceholderAt((t + "${" + name + "}" + rest)[i..]) == None
    ensures var s := t + "${" + name + "}" + rest;
      PlaceholderAt(s) == None && s[0] == t[0] && s[1..] == t[1..] + "${" + name + "}" + rest
    ensures forall i :: 0 <= i < |t[1..]| ==> PlaceholderAt((t[1..] + "${" + name + "}" + rest)[i..]) == None
  {
    var s := t + "${" + name + "}" + rest;
    var s1 := t[1..] + "${" + name + "}" + rest;
    assert s[0..] == s;
    assert s[1..] == s1;
    forall i | 0 <= i < |t[1..]| ensures PlaceholderAt(s1[i..]) == None {
      assert s1[i..] == s[i + 1..];
    }
  }

  lemma ScanLiteralHead(s: string)
    requires s != [] && PlaceholderAt(s) == None
    ensures Scan(s) == [Literal(s[0])] + Scan(s[1..])
  {
  }

  lemma LiteralsCons(t: string, tail: seq<Segment>)
    requires t != []
    ensures Literals(t) + tail == [Literal(t[0])] + (Literals(t[1..]) + tail)
  {
    assert Literals(t) == [Literal(t[0])] + Literals(t[1..]);
  }

  /** The replacement callback, applied to every segment; its results are
      never scanned again. */
  function Substitute(segs: seq<Segment>, config: map<string, string>): string {
    if segs == [] then ""
    else
      (match segs[0]
       case Literal(c) => [c]
       case Placeholder(name) => Lookup(config, name))
      + Substitute(segs[1..], config)
  }

  /** `expandVariable(value, config)`: text in which the pattern matches
      nowhere comes back unchanged. */
  function ExpandVariable(value: string, config: map<string, string>): (r: string)
    ensures NoPlaceholder(value) ==> r == value
  {
    SubstitutePlain(value, config);
    Substitute(Scan(value), config)
  }

  lemma SubstitutePlain(value: string, config: map<string, string>)
    ensures NoPlaceholder(value) ==> Substitute(Scan(value), config) == value
  {
    if NoPlaceholder(value) {
      ScanWithoutPlaceholder(value);
      ScanCovers(value);
      SubstituteLiterals(Scan(value), config);
    }
  }

  predicate NoPlaceholder(s: string) {
    forall i :: 0 <= i < |s| ==> PlaceholderAt(s[i..]) == None
  }

  lemma {:induction false} SubstituteLiterals(segs: seq<Segment>, config: map<string, string>)
    requires forall i :: 0 <= i < |segs| ==> segs[i].Literal?
    ensures Substitute(segs, config) == Text(segs)
  {
    if segs != [] {
      SubstituteLiterals(segs[1..], config);
    }
  }

  lemma {:induction false} ScanWithoutPlaceholder(s: string)
    requires NoPlaceholder(s)
    ensures forall i :: 0 <= i < |Scan(s)| ==> Scan(s)[i].Literal?
    decreases |s|
  {
    if s != [] {
      assert PlaceholderAt(s[0..]) == None;
      assert s[0..] == s;
      forall i | 0 <= i < |s[1..]| ensures PlaceholderAt(s[1..][i..]) == None {
        assert s[1..][i..] == s[i + 1..];
      }
      ScanWithoutPlaceholder(s[1..]);
    }
  }

  /** A string in which `$` is never followed by `{` is returned unchanged. */
  lemma ExpandWithoutOpener(s: string, config: map<string, string>)
    requires forall i :: 0 <= i < |s| - 1 ==> !(s[i] == '$' && s[i + 1] == '{')
    ensures ExpandVariable(s, config) == s
  {
    forall i | 0 <= i < |s| ensures PlaceholderAt(s[i..]) == None {
      if |s[i..]| >= 2 {
        assert s[i..][0] == s[i] && s[i..][1] == s[i + 1];
      }
    }
    assert NoPlaceholder(s);
  }

  /** Malformed placeholders stay literal: an empty name, ... */
  lemma ExpandKeepsEmptyBraces(config: map<string, string>)
    ensures ExpandVariable("${}", config) == "${}"
  {
    var s: string := "${}";
    forall i | 0 <= i < |s| ensures PlaceholderAt(s[i..]) == None {
      if i == 0 { assert WordRun(s[2..]) == 0; }
    }
    assert NoPlaceholder(s);
  }

  /** ... a name with a non-word character, ... */
  lemma ExpandKeepsNonWordName(config: map<string, string>)
    ensures ExpandVariable("${a-b}", config) == "${a-b}"
  {
    var s: string := "${a-b}";
    forall i | 0 <= i < |s| ensures PlaceholderAt(s[i..]) == None {
      if i == 0 { WordRunExact(s[2..], 1); }
    }
    assert NoPlaceholder(s);
  }

  /** ... and a placeholder without its closing brace, whatever its name. */
  lemma ExpandKeepsUnclosed(name: string, config: map<string, string>)
    requires IsName(name)
    ensures ExpandVariable("${" + name, config) == "${" + name
  {
    var s := "${" + name;
    forall i | 0 <= i < |s| ensures PlaceholderAt(s[i..]) == None {
      if i == 0 {
        assert s[2..] == name;
        WordRunExact(s[2..], |name|);
      } else if i >= 2 {
        assert s[i] == name[i - 2];
      }
    }
    assert NoPlaceholder(s);
  }

  /** A placeholder is replaced by the entry for its name (or by nothing),
      and scanning resumes after it: the replacement text is not scanned
      again, whatever it contains. */
  lemma ExpandAfterPlaceholder(name: string, rest: string, config: map<string, string>)
    requires IsName(name)
    ensures ExpandVariable("${" + name + "}" + rest, config) == Lookup(config, name) + ExpandVariable(rest, config)
  {
    var s := "${" + name + "}" + rest;
    PlaceholderAtComplete(s, name);
    assert s[|name| + 3..] == rest;
  }

  lemma ConsAppend(p: string, r: string)
    requires p != []
    ensures p + r == [p[0]] + (p[1..] + r)
  {
  }

  /** Where the pattern does not match at the head (a character other than
      `$`, or a `$` that starts no well-formed placeholder, as in `$5` or
      `${}`), the head character is copied and scanning resumes at the next
      one. With `ExpandAfterPlaceholder` this determines `ExpandVariable` on
      every non-empty input. */
  lemma ExpandNoMatchHead(s: string, config: map<string, string>)
    requires s != [] && PlaceholderAt(s) == None
    ensures ExpandVariable(s, config) == [s[0]] + ExpandVariable(s[1..], config)
  {
    var segs := Scan(s);
    assert segs == [Literal(s[0])] + Scan(s[1..]);
    assert segs[1..] == Scan(s[1..]);
  }

  /** A character other than `$` cannot start a placeholder: it is copied
      and scanning resumes at the next character. */
  lemma ExpandLiteralHead(c: char, t: string, config: map<string, string>)
    requires c != '$'
    ensures ExpandVariable([c] + t, config) == [c] + ExpandVariable(t, config)
  {
    var s := [c] + t;
    assert s[0] == c && s[1..] == t;
    ExpandNoMatchHead(s, config);
  }

  /** Text without `$` is copied verbatim and scanning resumes after it. */
  lemma {:induction false} ExpandAfterLiteral(prefix: string, rest: string, config: map<string, string>)
    requires '$' !in prefix
    ensures ExpandVariable(prefix + rest, config) == prefix + ExpandVariable(rest, config)
  {
    if prefix == [] {
      assert prefix + rest == rest;
    } else {
      ExpandAfterLiteral(prefix[1..], rest, config);
      ExpandLiteralHead(prefix[0], prefix[1..] + rest, config);
      ConsAppend(prefix, rest);
      ConsAppend(prefix, ExpandVariable(rest, config));
    }
  }

  /** `$`-free text, then a placeholder, then anything: the text is kept, the
      placeholder replaced, and the rest expanded. */
  lemma ExpandLiteralThenPlaceholder(t: string, name: string, rest: string, config: map<string, string>)
    requires '$' !in t && IsName(name)
    ensures ExpandVariable(t + ("${" + name + "}" + rest), config)
            == t + (Lookup(config, name) + ExpandVariable(rest, config))
  {
    ExpandAfterLiteral(t, "${" + name + "}" + rest, config);
    ExpandAfterPlaceholder(name, rest, config);
  }

  /** `$`-free text expands to itself. */
  lemma ExpandLiteral(t: string, config: map<string, string>)
    requires '$' !in t
    ensures ExpandVariable(t, config) == t
  {
    ExpandAfterLiteral(t, "", config);
    assert t + "" == t;
    assert Scan("") == [];
  }

  /** The first example of the expansion tests: the argument below is the
      string `"Hello, ${name}! Your age is ${age}."`, written as a
      concatenation of its literal and placeholder pieces, and the result is
      `"Hello, John! Your age is 30."`. Both placeholders are replaced and the
      text around them is kept. */
  lemma ExpandExampleGreeting(config: map<string, string>)
    requires "name" in config && config["name"] == "John"
    requires "age" in config && config["age"] == "30"
    ensures ExpandVariable("Hello, " + ("${name}" + ("! Your age is " + ("${age}" + "."))), config)
            == "Hello, " + ("John" + ("! Your age is " + ("30" + ".")))
  {
    assert IsName("name") && IsName("age");
    assert "${name}" + ("! Your age is " + ("${age}" + ".")) == "${" + "name" + "}" + ("! Your age is " + ("${age}" + "."));
    assert "${age}" + "." == "${" + "age" + "}" + ".";
    ExpandLiteralThenPlaceholder("Hello, ", "name", "! Your age is " + ("${age}" + "."), config);
    ExpandLiteralThenPlaceholder("! Your age is ", "age", ".", config);
    ExpandLiteral(".", config);
  }

  /** The second example: the argument is `"Hello, ${name}!"` in pieces, and
      against a configuration without `name` the result is `"Hello, !"`: an
      unknown name is replaced by nothing. */
  lemma ExpandExampleUnknownName(config: map<string, string>)
    requires "name" !in config
    ensures ExpandVariable("Hello, " + ("${name}" + "!"), config) == "Hello, " + "!"
  {
    assert IsName("name");
    assert "${name}" + "!" == "${" + "name" + "}" + "!";
    ExpandLiteralThenPlaceholder("Hello, ", "name", "!", config);
    ExpandLiteral("!", config);
  }

  /** Single pass: `${name}` on its own expands to the entry verbatim, even
      when that entry itself contains placeholders. */
  lemma ExpandIsSinglePass(name: string, config: map<string, string>)
    requires IsName(name) && name in config
    ensures ExpandVariable("${" + name + "}", config) == config[name]
  {
    ExpandAfterPlaceholder(name, "", config);
    assert "${" + name + "}" + "" == "${" + name + "}";
  }

  /** Every placeholder segment carries a name the pattern accepts. */
  predicate WellFormed(segs: seq<Segment>) {
    forall i :: 0 <= i < |segs| && segs[i].Placeholder? ==> IsName(segs[i].name)
  }

  /** A character that cannot be part of a placeholder is a literal wherever it
      occurs, and literals are copied to the output. */
  lemma {:induction false} SubstituteKeeps(segs: seq<Segment>, config: map<string, string>, c: char)
    requires WellFormed(segs)
    requires c in Text(segs) && !IsPlaceholderChar(c)
    ensures c in Substitute(segs, config)
  {
    assert segs != [];
    var head := SegmentText(segs[0]);
    assert Text(segs) == head + Text(segs[1..]);
    if segs[0].Literal? && c in head {
      assert Substitute(segs, config)[0] == c;
    } else {
      assert c !in head by {
        if segs[0].Placeholder? {
          var name := segs[0].name;
          forall k | 0 <= k < |head| ensures head[k] != c {
            if 2 <= k < |head| - 1 {
              assert head[k] == name[k - 2];
            }
          }
        }
      }
      SubstituteKeeps(segs[1..], config, c);
    }
  }

  /** Characters outside placeholder syntax survive expansion; in particular
      a value holding one never expands to the empty string. */
  lemma ExpandKeepsLiteralChar(s: string, config: map<string, string>, c: char)
    requires c in s && !IsPlaceholderChar(c)
    ensures c in ExpandVariable(s, config)
    ensures ExpandVariable(s, config) != ""
  {
    ScanCovers(s);
    SubstituteKeeps(Scan(s), config, c);
  }
}
