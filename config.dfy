/** The configuration edits of dvgutils/config.py: `overwrite_config`, which applies `a.b.c=value`
    overrides to the nested configuration map, and `constructor_env_variables`, which substitutes
    `${NAME}` placeholders from the environment. Parsing YAML is outside the model: the configuration
    is a tree whose leaves are opaque scalars, and `yaml.safe_load` of an override's value is a
    function parameter. */
module Config {
  import opened Wrappers
  import opened Text

  /** A YAML value: a scalar (or list) leaf, or a mapping from keys to values. */
  datatype Value<L> = Leaf(leaf: L) | Node(children: map<string, Value<L>>)

  /** The value reached by following the keys of `path` from `v`, if every key is there. */
  function Get<L>(v: Value<L>, path: seq<string>): Option<Value<L>>
    decreases |path|
  {
    if |path| == 0 then Some(v)
    else if v.Node? && path[0] in v.children then Get(v.children[path[0]], path[1..])
    else None
  }

  /** The keys of the mapping at `path`; none when there is no mapping there. */
  function KeysAt<L>(v: Value<L>, path: seq<string>): set<string>
  {
    var n := Get(v, path);
    if n.Some? && n.value.Node? then n.value.children.Keys else {}
  }

  // ---------------------------------------------------------------- overwrite_config

  /** `{}`. */
  function EmptyNode<L>(): Value<L>
  {
    Node(map[])
  }

  /** The walk and assignment of one override: down the keys of `path` but the last, creating an
      empty mapping for a missing key and reusing an existing one, then assigning `x` to the last
      key. Subscripting a leaf on the way (or assigning into one) is a TypeError; the walk changes
      nothing before it meets the leaf, so then the value is left as it was. */
  function SetPath<L>(cur: Value<L>, path: seq<string>, x: Value<L>): Result<Value<L>>
    requires |path| >= 1
    decreases |path|
  {
    if cur.Leaf? then Err(TypeError)
    else if |path| == 1 then Ok(Node(cur.children[path[0] := x]))
    else
      var child := if path[0] in cur.children then cur.children[path[0]] else EmptyNode();
      var sub := SetPath(child, path[1..], x);
      if sub.Err? then Err(sub.error) else Ok(Node(cur.children[path[0] := sub.value]))
  }

  /** Every proper prefix of `path` that exists in `v` (the empty one included) leads to a mapping. */
  ghost predicate NoLeafOnPath<L>(v: Value<L>, path: seq<string>)
  {
    forall k :: 0 <= k < |path| && Get(v, path[..k]).Some? ==> Get(v, path[..k]).value.Node?
  }

  /** Following a non-empty path is following its first key, then the rest. */
  lemma GetFirst<L>(v: Value<L>, path: seq<string>, k: nat)
    requires 1 <= k <= |path|
    ensures Get(v, path[..k]) == if v.Node? && path[0] in v.children
                                 then Get(v.children[path[0]], path[1..][..k - 1]) else None
  {
    assert path[..k][0] == path[0];
    assert path[..k][1..] == path[1..][..k - 1];
  }

  lemma EmptyNoLeaf<L>(path: seq<string>)
    ensures NoLeafOnPath(EmptyNode<L>(), path)
  {
    forall k | 0 <= k < |path| && Get(EmptyNode<L>(), path[..k]).Some?
      ensures Get(EmptyNode<L>(), path[..k]).value.Node?
    {
      if k > 0 { GetFirst(EmptyNode<L>(), path, k); }
      else { assert path[..k] == []; }
    }
  }

  /** An override succeeds exactly when no existing value along its path is a leaf; otherwise it
      is a TypeError. */
  lemma {:induction false} SetPathSucceeds<L>(v: Value<L>, path: seq<string>, x: Value<L>)
    requires |path| >= 1
    ensures SetPath(v, path, x).Ok? <==> NoLeafOnPath(v, path)
    ensures SetPath(v, path, x).Err? ==> SetPath(v, path, x).error == TypeError
    decreases |path|
  {
    assert path[..0] == [];
    if v.Node? && |path| > 1 {
      var child := if path[0] in v.children then v.children[path[0]] else EmptyNode();
      SetPathSucceeds(child, path[1..], x);
      if path[0] in v.children {
        forall k | 1 <= k <= |path| { GetFirst(v, path, k); }
        assert NoLeafOnPath(v, path) ==> NoLeafOnPath(child, path[1..]) by {
          if NoLeafOnPath(v, path) {
            forall k | 0 <= k < |path[1..]| && Get(child, path[1..][..k]).Some?
              ensures Get(child, path[1..][..k]).value.Node?
            {
              assert Get(v, path[..k + 1]) == Get(child, path[1..][..k]);
            }
          }
        }
        assert NoLeafOnPath(child, path[1..]) ==> NoLeafOnPath(v, path) by {
          if NoLeafOnPath(child, path[1..]) {
            forall k | 0 <= k < |path| && Get(v, path[..k]).Some?
              ensures Get(v, path[..k]).value.Node?
            {
              if k > 0 { assert Get(v, path[..k]) == Get(child, path[1..][..k - 1]); }
            }
          }
        }
      } else {
        EmptyNoLeaf<L>(path[1..]);
        forall k | 0 <= k < |path| && Get(v, path[..k]).Some?
          ensures Get(v, path[..k]).value.Node?
        {
          if k > 0 { GetFirst(v, path, k); }
        }
      }
    }
  }

  /** After a successful override the path leads to the assigned value. */
  lemma {:induction false} SetPathGet<L>(v: Value<L>, path: seq<string>, x: Value<L>)
    requires |path| >= 1 && SetPath(v, path, x).Ok?
    ensures Get(SetPath(v, path, x).value, path) == Some(x)
    decreases |path|
  {
    if |path| > 1 {
      var child := if path[0] in v.children then v.children[path[0]] else EmptyNode();
      SetPathGet(child, path[1..], x);
    }
  }

  /** A path that leaves the override's path at position i (same keys before i, a different key at
      i) reaches the same value, or nothing, as before: keys off the path are not changed. */
  lemma {:induction false} SetPathOthers<L>(v: Value<L>, path: seq<string>, x: Value<L>, q: seq<string>, i: nat)
    requires |path| >= 1 && SetPath(v, path, x).Ok?
    requires i < |path| && i < |q| && q[..i] == path[..i] && q[i] != path[i]
    ensures Get(SetPath(v, path, x).value, q) == Get(v, q)
    decreases i
  {
    if i > 0 {
      assert q[0] == q[..i][0] == path[..i][0] == path[0];
      var child := if path[0] in v.children then v.children[path[0]] else EmptyNode();
      assert q[1..][..i - 1] == q[..i][1..] == path[..i][1..] == path[1..][..i - 1];
      SetPathOthers(child, path[1..], x, q[1..], i - 1);
      if path[0] !in v.children {
        assert |q[1..]| > 0;
        assert Get(child, q[1..]) == None;
      }
    }
  }

  /** Along the path, every proper prefix then leads to a mapping whose keys are the old ones (none
      where the key was missing and an empty mapping was created) plus the next key of the path. */
  lemma {:induction false} SetPathPrefixes<L>(v: Value<L>, path: seq<string>, x: Value<L>, k: nat)
    requires |path| >= 1 && SetPath(v, path, x).Ok? && k < |path|
    ensures var r := SetPath(v, path, x).value;
      Get(r, path[..k]).Some? && Get(r, path[..k]).value.Node?
      && KeysAt(r, path[..k]) == KeysAt(v, path[..k]) + {path[k]}
    decreases k
  {
    var r := SetPath(v, path, x).value;
    if k == 0 {
      assert path[..0] == [];
    } else {
      var child := if path[0] in v.children then v.children[path[0]] else EmptyNode();
      SetPathPrefixes(child, path[1..], x, k - 1);
      GetFirst(r, path, k);
      GetFirst(v, path, k);
      if path[0] !in v.children && k - 1 > 0 {
        GetFirst(child, path[1..], k - 1);
      }
      if path[0] !in v.children && k - 1 == 0 {
        assert path[1..][..0] == [];
      }
    }
  }

  /** A one-key path sets that top-level key of a mapping, keeping the others. */
  lemma SetTopLevel<L>(v: Value<L>, key: string, x: Value<L>)
    ensures SetPath(v, [key], x).Ok? <==> v.Node?
    ensures v.Node? ==> var r := SetPath(v, [key], x).value;
      r.Node? && r.children.Keys == v.children.Keys + {key} && r.children[key] == x
      && forall k :: k in v.children && k != key ==> r.children[k] == v.children[k]
  {
  }

  /** `props, value = overwrite.split("=")` and `props.split(".")`: the keys of the path and the raw
      value. Anything but exactly two pieces around "=" fails to unpack, a ValueError. */
  function ParseOverride(s: string): Result<(seq<string>, string)>
  {
    var parts := Split(s, '=');
    if |parts| != 2 then Err(ValueError) else Ok((Split(parts[0], '.'), parts[1]))
  }

  /** An override parses exactly when it holds one "="; its path then has at least one key, no key
      holds "." or "=", and the keys joined by "." followed by "=" and the value give the override
      back. */
  lemma ParseOverrideShape(s: string)
    ensures ParseOverride(s).Ok? <==> CountOf(s, '=') == 1
    ensures ParseOverride(s).Err? ==> ParseOverride(s).error == ValueError
    ensures ParseOverride(s).Ok? ==> var (path, raw) := ParseOverride(s).value;
      && |path| >= 1
      && (forall i :: 0 <= i < |path| ==> '.' !in path[i] && '=' !in path[i])
      && '=' !in raw
      && Join(path, '.') + ['='] + raw == s
  {
    SplitCount(s, '=');
    var parts := Split(s, '=');
    JoinSplit(s, '=');
    if |parts| == 2 {
      JoinSplit(parts[0], '.');
      var path := Split(parts[0], '.');
      assert '=' !in parts[0];
      forall i | 0 <= i < |path| ensures '=' !in path[i] {
        assert forall c :: c in path[i] ==> c in Join(path, '.') by {
          JoinContains(path, '.', i);
        }
      }
      assert Join(parts, '=') == parts[0] + ['='] + parts[1];
    }
  }

  /** Every character of a piece is in the joined text. */
  lemma {:induction false} JoinContains(parts: seq<string>, c: char, i: nat)
    requires |parts| >= 1 && i < |parts|
    ensures forall x :: x in parts[i] ==> x in Join(parts, c)
    decreases i
  {
    if i > 0 {
      JoinContains(parts[1..], c, i - 1);
    }
  }

  /** One override applied to `config`: the new configuration and no error, or the configuration
      as it was and the error. */
  function ApplyOverride<L>(config: Value<L>, overwrite: string, parse: string -> Value<L>): (Value<L>, Option<Error>)
  {
    var parsed := ParseOverride(overwrite);
    if parsed.Err? then (config, Some(parsed.error))
    else
      var (path, raw) := parsed.value;
      var updated := SetPath(config, path, parse(raw));
      if updated.Err? then (config, Some(updated.error)) else (updated.value, None)
  }

  /** The overrides applied in list order. The first error ends the run, and the configuration keeps
      the overrides before it, as the in-place edits of the source do. */
  function Overridden<L>(config: Value<L>, overwrites: seq<string>, parse: string -> Value<L>): (Value<L>, Option<Error>)
    decreases |overwrites|
  {
    if |overwrites| == 0 then (config, None)
    else
      var before := Overridden(config, overwrites[..|overwrites| - 1], parse);
      if before.1.Some? then before
      else ApplyOverride(before.0, overwrites[|overwrites| - 1], parse)
  }

  /** `overwrite_config(config, overwrites)`: the configuration after the overrides, and the error
      that stopped them, if one did. */
  method OverwriteConfig<L>(config: Value<L>, overwrites: seq<string>, parse: string -> Value<L>)
    returns (out: Value<L>, err: Option<Error>)
    ensures (out, err) == Overridden(config, overwrites, parse)
  {
    out := config;
    var i := 0;
    while i < |overwrites|
      invariant 0 <= i <= |overwrites|
      invariant (out, None) == Overridden(config, overwrites[..i], parse)
    {
      assert overwrites[..i + 1][..i] == overwrites[..i];
      var parsed := ParseOverride(overwrites[i]);
      if parsed.Err? {
        assert (out, Some(parsed.error)) == Overridden(config, overwrites[..i + 1], parse);
        OverriddenStops(config, overwrites[..i + 1], overwrites[i + 1..], parse);
        assert overwrites[..i + 1] + overwrites[i + 1..] == overwrites;
        return out, Some(parsed.error);
      }
      var (path, raw) := parsed.value;
      var updated := SetPath(out, path, parse(raw));
      if updated.Err? {
        assert (out, Some(updated.error)) == Overridden(config, overwrites[..i + 1], parse);
        OverriddenStops(config, overwrites[..i + 1], overwrites[i + 1..], parse);
        assert overwrites[..i + 1] + overwrites[i + 1..] == overwrites;
        return out, Some(updated.error);
      }
      out := updated.value;
      i := i + 1;
    }
    assert overwrites[..i] == overwrites;
    err := None;
  }

  /** Once an override fails, the later ones are not applied. */
  lemma {:induction false} OverriddenStops<L>(config: Value<L>, done: seq<string>, more: seq<string>, parse: string -> Value<L>)
    requires Overridden(config, done, parse).1.Some?
    ensures Overridden(config, done + more, parse) == Overridden(config, done, parse)
    decreases |more|
  {
    var all := done + more;
    if |more| > 0 {
      assert all[..|all| - 1] == done + more[..|more| - 1];
      OverriddenStops(config, done, more[..|more| - 1], parse);
      assert Overridden(config, all[..|all| - 1], parse) == Overridden(config, done, parse);
    } else {
      assert all == done;
    }
  }

  /** When a run of overrides succeeds, the path of the last one holds its value. */
  lemma LastOverrideWins<L>(config: Value<L>, overwrites: seq<string>, overwrite: string, parse: string -> Value<L>)
    requires Overridden(config, overwrites + [overwrite], parse).1.None?
    ensures ParseOverride(overwrite).Ok?
    ensures var (path, raw) := ParseOverride(overwrite).value;
      Get(Overridden(config, overwrites + [overwrite], parse).0, path) == Some(parse(raw))
  {
    var all := overwrites + [overwrite];
    assert all[..|all| - 1] == overwrites;
    var before := Overridden(config, overwrites, parse);
    var (path, raw) := ParseOverride(overwrite).value;
    SetPathGet(before.0, path, parse(raw));
  }

  /** Two successful overrides of the same path: the later value is the one that stays. */
  lemma LaterOverrideWins<L>(config: Value<L>, first: string, second: string, parse: string -> Value<L>)
    requires Overridden(config, [first, second], parse).1.None?
    requires ParseOverride(first).Ok? && ParseOverride(second).Ok?
    requires ParseOverride(first).value.0 == ParseOverride(second).value.0
    ensures Get(Overridden(config, [first, second], parse).0, ParseOverride(first).value.0)
         == Some(parse(ParseOverride(second).value.1))
  {
    assert [first] + [second] == [first, second];
    LastOverrideWins(config, [first], second, parse);
  }

  // ---------------------------------------------------------------- ${NAME} substitution

  /** A character of `\w` (ASCII letters, digits and the underscore). */
  predicate IsWordChar(c: char)
  {
    'a' <= c <= 'z' || 'A' <= c <= 'Z' || '0' <= c <= '9' || c == '_'
  }

  /** The length of the run of word characters that `s` starts with. */
  function WordRun(s: string): (n: nat)
    ensures n <= |s|
    ensures forall i :: 0 <= i < n ==> IsWordChar(s[i])
    ensures n < |s| ==> !IsWordChar(s[n])
    decreases |s|
  {
    if |s| == 0 || !IsWordChar(s[0]) then 0 else 1 + WordRun(s[1..])
  }

  /** The names that `findall` of the pattern `.*?\$\{(\w+)\}.*?` returns: each `${NAME}` with a
      non-empty word NAME, scanning left to right. */
  function FindAll(s: string): seq<string>
    decreases |s|
  {
    if |s| < 2 then []
    else if s[0] == '$' && s[1] == '{' then
      var n := WordRun(s[2..]);
      if n > 0 && 2 + n < |s| && s[2 + n] == '}' then [s[2..2 + n]] + FindAll(s[3 + n..])
      else FindAll(s[1..])
    else FindAll(s[1..])
  }

  /** The placeholder text of a name. */
  function Placeholder(name: string): (p: string)
    ensures |p| > 0 && p[0] == '$'
  {
    ['$', '{'] + name + ['}']
  }

  /** `os.environ.get(name, name)`. */
  function Lookup(env: map<string, string>, name: string): string
  {
    if name in env then env[name] else name
  }

  /** The replacements of the first `names`, one after the other, each of every occurrence in the
      text as it stands. */
  function ReplacedAll(s: string, names: seq<string>, env: map<string, string>): string
    decreases |names|
  {
    if |names| == 0 then s
    else
      var last := names[|names| - 1];
      Replace(ReplacedAll(s, names[..|names| - 1], env), Placeholder(last), Lookup(env, last))
  }

  /** What `constructor_env_variables` returns for a scalar. */
  function Substituted(value: string, env: map<string, string>): string
  {
    ReplacedAll(value, FindAll(value), env)
  }

  /** `constructor_env_variables`: finds the names, then replaces each name's placeholder in turn. */
  method ConstructorEnvVariables(value: string, env: map<string, string>) returns (full: string)
    ensures full == Substituted(value, env)
  {
    var names := FindAll(value);
    if |names| == 0 {
      return value;
    }
    full := value;
    for i := 0 to |names|
      invariant full == ReplacedAll(value, names[..i], env)
    {
      assert names[..i + 1][..i] == names[..i];
      full := Replace(full, Placeholder(names[i]), Lookup(env, names[i]));
    }
    assert names[..|names|] == names;
  }

  /** Text without "$" has no placeholder. */
  lemma {:induction false} FindAllNoDollar(s: string)
    requires '$' !in s
    ensures FindAll(s) == []
    decreases |s|
  {
    if |s| >= 2 {
      assert '$' !in s[1..];
      FindAllNoDollar(s[1..]);
    }
  }

  /** A value with no "$" comes back unchanged. */
  lemma {:induction false} NoPlaceholderUnchanged(value: string, env: map<string, string>)
    requires '$' !in value
    ensures Substituted(value, env) == value
  {
    FindAllNoDollar(value);
  }

  /** A "$"-free prefix contributes no name. */
  lemma {:induction false} FindAllPrefix(p: string, s: string)
    requires '$' !in p
    ensures FindAll(p + s) == FindAll(s)
    decreases |p|
  {
    if |p| > 0 {
      assert (p + s)[1..] == p[1..] + s;
      assert '$' !in p[1..];
      FindAllPrefix(p[1..], s);
      if |p + s| < 2 {
        assert p + s == [p[0]] && |s| == 0;
      }
    } else {
      assert p + s == s;
    }
  }

  /** A placeholder at the front is found, and the search goes on after it. */
  lemma FindAllPlaceholder(name: string, s: string)
    requires |name| > 0 && forall i :: 0 <= i < |name| ==> IsWordChar(name[i])
    ensures FindAll(Placeholder(name) + s) == [name] + FindAll(s)
  {
    var t := Placeholder(name) + s;
    assert t[2..] == name + (['}'] + s);
    WordRunWord(name, ['}'] + s);
    assert t[2..2 + |name|] == name;
    assert t[3 + |name|..] == s;
  }

  lemma {:induction false} WordRunWord(name: string, s: string)
    requires forall i :: 0 <= i < |name| ==> IsWordChar(name[i])
    requires |s| > 0 && !IsWordChar(s[0])
    ensures WordRun(name + s) == |name|
    decreases |name|
  {
    if |name| > 0 {
      assert (name + s)[1..] == name[1..] + s;
      WordRunWord(name[1..], s);
    } else {
      assert name + s == s;
    }
  }

  /** A single placeholder amid "$"-free text is replaced by the variable's value, or by its name
      when the variable is not set. */
  lemma SubstitutedOne(pre: string, name: string, post: string, env: map<string, string>)
    requires '$' !in pre && '$' !in post
    requires |name| > 0 && forall i :: 0 <= i < |name| ==> IsWordChar(name[i])
    ensures Substituted(pre + Placeholder(name) + post, env) == pre + Lookup(env, name) + post
  {
    var value := pre + Placeholder(name) + post;
    FindAllOne(pre, name, post);
    ReplaceOne(pre, name, post, Lookup(env, name));
    assert [name][..0] == [];
    assert ReplacedAll(value, [name], env) == Replace(value, Placeholder(name), Lookup(env, name));
  }

  lemma FindAllOne(pre: string, name: string, post: string)
    requires '$' !in pre && '$' !in post
    requires |name| > 0 && forall i :: 0 <= i < |name| ==> IsWordChar(name[i])
    ensures FindAll(pre + Placeholder(name) + post) == [name]
  {
    assert pre + Placeholder(name) + post == pre + (Placeholder(name) + post);
    FindAllPrefix(pre, Placeholder(name) + post);
    FindAllPlaceholder(name, post);
    FindAllNoDollar(post);
  }

  lemma ReplaceOne(pre: string, name: string, post: string, rep: string)
    requires '$' !in pre && '$' !in post
    ensures Replace(pre + Placeholder(name) + post, Placeholder(name), rep) == pre + rep + post
  {
    var p := Placeholder(name);
    assert pre + p + post == pre + (p + post);
    ReplacePrefix(pre, p + post, p, rep);
    assert p <= p + post;
    assert (p + post)[|p|..] == post;
    ReplaceAbsent(post, p, rep);
  }

  // A value made of "$"-free gaps and placeholders: gaps[0] + ${names[0]} + gaps[1] + ... + gaps[k].

  /** A non-empty run of word characters, as `(\w+)` captures. */
  predicate IsWord(name: string)
  {
    |name| > 0 && forall i :: 0 <= i < |name| ==> IsWordChar(name[i])
  }

  /** The gaps with the placeholders of `names` between them. */
  function Template(gaps: seq<string>, names: seq<string>): string
    requires |gaps| == |names| + 1
    decreases |names|
  {
    if |names| == 0 then gaps[0]
    else gaps[0] + Placeholder(names[0]) + Template(gaps[1..], names[1..])
  }

  /** The gaps with each name's environment value, or the name itself, between them. */
  function LookedUp(gaps: seq<string>, names: seq<string>, env: map<string, string>): string
    requires |gaps| == |names| + 1
    decreases |names|
  {
    if |names| == 0 then gaps[0]
    else gaps[0] + Lookup(env, names[0]) + LookedUp(gaps[1..], names[1..], env)
  }

  /** The text part way through the loop: placeholders of the names in `done` are replaced, the
      others still stand. */
  function PartlyReplaced(gaps: seq<string>, names: seq<string>, env: map<string, string>, done: seq<string>): string
    requires |gaps| == |names| + 1
    decreases |names|
  {
    if |names| == 0 then gaps[0]
    else
      gaps[0] + (if names[0] in done then Lookup(env, names[0]) else Placeholder(names[0]))
        + PartlyReplaced(gaps[1..], names[1..], env, done)
  }

  /** `findall` over gaps and placeholders returns the names, in order and with repeats. */
  lemma {:induction false} FindAllTemplate(gaps: seq<string>, names: seq<string>)
    requires |gaps| == |names| + 1
    requires forall i :: 0 <= i < |gaps| ==> '$' !in gaps[i]
    requires forall i :: 0 <= i < |names| ==> IsWord(names[i])
    ensures FindAll(Template(gaps, names)) == names
    decreases |names|
  {
    if |names| == 0 {
      FindAllNoDollar(gaps[0]);
    } else {
      var rest := Template(gaps[1..], names[1..]);
      assert gaps[0] + Placeholder(names[0]) + rest == gaps[0] + (Placeholder(names[0]) + rest);
      FindAllPrefix(gaps[0], Placeholder(names[0]) + rest);
      assert IsWord(names[0]);
      FindAllPlaceholder(names[0], rest);
      FindAllTemplate(gaps[1..], names[1..]);
      assert [names[0]] + names[1..] == names;
    }
  }

  /** The placeholder of one word is never a prefix of the placeholder of another. */
  lemma PlaceholderPrefix(x: string, n: string, rest: string)
    requires IsWord(x) && IsWord(n) && x != n
    ensures !(Placeholder(x) <= Placeholder(n) + rest)
  {
    var px, t := Placeholder(x), Placeholder(n) + rest;
    assert px == ['$', '{'] + x + ['}'];
    assert t == ['$', '{'] + n + ['}'] + rest;
    if |x| < |n| {
      assert px[2 + |x|] == '}' && IsWordChar(t[2 + |x|]);
    } else if |x| > |n| {
      assert t[2 + |n|] == '}' && IsWordChar(px[2 + |n|]);
    } else {
      var i :| 0 <= i < |x| && x[i] != n[i];
      assert px[2 + i] == x[i] && t[2 + i] == n[i];
    }
  }

  /** Replacing the placeholder of `x` everywhere moves `x` into the replaced names. */
  lemma {:induction false} ReplaceStep(gaps: seq<string>, names: seq<string>, env: map<string, string>, done: seq<string>, x: string)
    requires |gaps| == |names| + 1
    requires forall i :: 0 <= i < |gaps| ==> '$' !in gaps[i]
    requires forall i :: 0 <= i < |names| ==> IsWord(names[i]) && '$' !in Lookup(env, names[i])
    requires IsWord(x)
    ensures Replace(PartlyReplaced(gaps, names, env, done), Placeholder(x), Lookup(env, x))
         == PartlyReplaced(gaps, names, env, done + [x])
    decreases |names|
  {
    var px, rx := Placeholder(x), Lookup(env, x);
    if |names| == 0 {
      ReplaceAbsent(gaps[0], px, rx);
    } else {
      var n := names[0];
      var p := if n in done then Lookup(env, n) else Placeholder(n);
      var q := if n in done + [x] then Lookup(env, n) else Placeholder(n);
      var rest := PartlyReplaced(gaps[1..], names[1..], env, done);
      var rest' := PartlyReplaced(gaps[1..], names[1..], env, done + [x]);
      assert PartlyReplaced(gaps, names, env, done) == gaps[0] + (p + rest);
      assert PartlyReplaced(gaps, names, env, done + [x]) == gaps[0] + q + rest';
      assert '$' !in gaps[0];
      assert IsWord(n) && '$' !in Lookup(env, n);
      ReplaceHead(n, x, done, rest, env);
      ReplaceStep(gaps[1..], names[1..], env, done, x);
      ReplaceAfterGap(gaps[0], p + rest, q, rest, rest', px, rx);
    }
  }

  lemma ReplaceAfterGap(g: string, s: string, q: string, rest: string, rest': string, px: string, rx: string)
    requires |px| > 0 && px[0] == '$' && '$' !in g
    requires Replace(s, px, rx) == q + Replace(rest, px, rx) && Replace(rest, px, rx) == rest'
    ensures Replace(g + s, px, rx) == g + q + rest'
  {
    ReplacePrefix(g, s, px, rx);
  }

  /** One placeholder position of ReplaceStep: a replaced value or another name is kept, the
      placeholder of `x` itself is replaced. */
  lemma ReplaceHead(n: string, x: string, done: seq<string>, rest: string, env: map<string, string>)
    requires IsWord(n) && IsWord(x) && '$' !in Lookup(env, n)
    ensures var p := if n in done then Lookup(env, n) else Placeholder(n);
      var q := if n in done + [x] then Lookup(env, n) else Placeholder(n);
      Replace(p + rest, Placeholder(x), Lookup(env, x)) == q + Replace(rest, Placeholder(x), Lookup(env, x))
  {
    var px, rx := Placeholder(x), Lookup(env, x);
    if n in done {
      ReplacePrefix(Lookup(env, n), rest, px, rx);
    } else if n == x {
      assert px <= px + rest;
      assert (px + rest)[|px|..] == rest;
    } else {
      ReplaceOther(n, x, rest, rx);
    }
  }

  lemma ReplaceOther(n: string, x: string, rest: string, rx: string)
    requires IsWord(n) && IsWord(x) && n != x
    ensures Replace(Placeholder(n) + rest, Placeholder(x), rx) == Placeholder(n) + Replace(rest, Placeholder(x), rx)
  {
    var p, px := Placeholder(n), Placeholder(x);
    PlaceholderPrefix(x, n, rest);
    assert (p + rest)[1..] == p[1..] + rest;
    WordNoDollar(n);
    ReplacePrefix(p[1..], rest, px, rx);
    assert [p[0]] + (p[1..] + rest) == p + rest;
    assert [p[0]] + p[1..] == p;
  }

  lemma WordNoDollar(n: string)
    requires IsWord(n)
    ensures '$' !in Placeholder(n)[1..]
  {
    assert Placeholder(n)[1..] == ['{'] + n + ['}'];
    assert !IsWordChar('$');
  }

  /** After the loop's turns for the names in `done`, exactly their placeholders are replaced. */
  lemma {:induction false} ReplacedAllPartly(gaps: seq<string>, names: seq<string>, env: map<string, string>, done: seq<string>)
    requires |gaps| == |names| + 1
    requires forall i :: 0 <= i < |gaps| ==> '$' !in gaps[i]
    requires forall i :: 0 <= i < |names| ==> IsWord(names[i]) && '$' !in Lookup(env, names[i])
    requires forall i :: 0 <= i < |done| ==> IsWord(done[i])
    ensures ReplacedAll(Template(gaps, names), done, env) == PartlyReplaced(gaps, names, env, done)
    decreases |done|
  {
    if |done| == 0 {
      NoneReplaced(gaps, names, env);
    } else {
      var before, x := done[..|done| - 1], done[|done| - 1];
      ReplacedAllPartly(gaps, names, env, before);
      ReplaceStep(gaps, names, env, before, x);
      assert before + [x] == done;
    }
  }

  lemma {:induction false} NoneReplaced(gaps: seq<string>, names: seq<string>, env: map<string, string>)
    requires |gaps| == |names| + 1
    ensures Template(gaps, names) == PartlyReplaced(gaps, names, env, [])
    decreases |names|
  {
    if |names| > 0 {
      NoneReplaced(gaps[1..], names[1..], env);
    }
  }

  lemma {:induction false} AllReplaced(gaps: seq<string>, names: seq<string>, env: map<string, string>, done: seq<string>)
    requires |gaps| == |names| + 1
    requires forall i :: 0 <= i < |names| ==> names[i] in done
    ensures PartlyReplaced(gaps, names, env, done) == LookedUp(gaps, names, env)
    decreases |names|
  {
    if |names| > 0 {
      assert names[0] in done;
      AllReplaced(gaps[1..], names[1..], env, done);
    }
  }

  /** Every `${NAME}` between "$"-free gaps is replaced by the variable's value, or by NAME when it
      is unset; repeated names included. The values themselves must be free of "$": the loop goes
      on replacing in the text as it stands, so a value holding `${B}` is replaced again when B's
      turn comes (see SubstitutedChained). */
  lemma SubstitutedTemplate(gaps: seq<string>, names: seq<string>, env: map<string, string>)
    requires |gaps| == |names| + 1
    requires forall i :: 0 <= i < |gaps| ==> '$' !in gaps[i]
    requires forall i :: 0 <= i < |names| ==> IsWord(names[i]) && '$' !in Lookup(env, names[i])
    ensures Substituted(Template(gaps, names), env) == LookedUp(gaps, names, env)
  {
    FindAllTemplate(gaps, names);
    ReplacedAllPartly(gaps, names, env, names);
    AllReplaced(gaps, names, env, names);
  }

  /** Two placeholders around a "$"-free middle. */
  lemma SubstitutedTwo(a: string, mid: string, b: string, env: map<string, string>)
    requires IsWord(a) && IsWord(b) && '$' !in mid
    requires '$' !in Lookup(env, a) && '$' !in Lookup(env, b)
    ensures Substituted(Placeholder(a) + mid + Placeholder(b), env) == Lookup(env, a) + mid + Lookup(env, b)
  {
    var gaps, names := ["", mid, ""], [a, b];
    PairShape(a, mid, b, env);
    assert forall i :: 0 <= i < |gaps| ==> '$' !in gaps[i];
    assert forall i :: 0 <= i < |names| ==> IsWord(names[i]) && '$' !in Lookup(env, names[i]);
    SubstitutedTemplate(gaps, names, env);
  }

  lemma PairShape(a: string, mid: string, b: string, env: map<string, string>)
    ensures Template(["", mid, ""], [a, b]) == Placeholder(a) + mid + Placeholder(b)
    ensures LookedUp(["", mid, ""], [a, b], env) == Lookup(env, a) + mid + Lookup(env, b)
  {
    var gaps, names := ["", mid, ""], [a, b];
    assert gaps[1..] == [mid, ""] && gaps[1..][1..] == [""];
    assert names[1..] == [b] && names[1..][1..] == [];
    assert Template(gaps[1..], names[1..]) == mid + Placeholder(b) + "";
    assert Template(gaps, names) == "" + Placeholder(a) + (mid + Placeholder(b) + "");
    assert LookedUp(gaps[1..], names[1..], env) == mid + Lookup(env, b) + "";
    assert LookedUp(gaps, names, env) == "" + Lookup(env, a) + (mid + Lookup(env, b) + "");
  }

  /** The value `'${AWESOME_ENV_VAR}/var/${A_SECOND_AWESOME_VAR}'` of the loader's documentation. */
  lemma SubstitutedDocumented(env: map<string, string>)
    requires '$' !in Lookup(env, "AWESOME_ENV_VAR") && '$' !in Lookup(env, "A_SECOND_AWESOME_VAR")
    ensures Substituted("${AWESOME_ENV_VAR}" + "/var/" + "${A_SECOND_AWESOME_VAR}", env)
         == Lookup(env, "AWESOME_ENV_VAR") + "/var/" + Lookup(env, "A_SECOND_AWESOME_VAR")
  {
    DocumentedFirst();
    DocumentedSecond();
    SubstitutedTwo("AWESOME_ENV_VAR", "/var/", "A_SECOND_AWESOME_VAR", env);
  }

  lemma DocumentedFirst()
    ensures IsWord("AWESOME_ENV_VAR") && Placeholder("AWESOME_ENV_VAR") == "${AWESOME_ENV_VAR}"
  {
  }

  lemma DocumentedSecond()
    ensures IsWord("A_SECOND_AWESOME_VAR") && Placeholder("A_SECOND_AWESOME_VAR") == "${A_SECOND_AWESOME_VAR}"
  {
  }

  /** The value `'/var/${LOG_PATH}'` of the loader's documentation. */
  lemma SubstitutedLogPath(env: map<string, string>)
    ensures Substituted("/var/" + "${LOG_PATH}", env) == "/var/" + Lookup(env, "LOG_PATH")
  {
    assert IsWord("LOG_PATH");
    assert Placeholder("LOG_PATH") == "${LOG_PATH}";
    SubstitutedOne("/var/", "LOG_PATH", "", env);
    assert "/var/" + Placeholder("LOG_PATH") + "" == "/var/" + "${LOG_PATH}";
    assert "/var/" + Lookup(env, "LOG_PATH") + "" == "/var/" + Lookup(env, "LOG_PATH");
  }

  /** A "$" that does not open a brace, amid "$"-free text, is no placeholder: `$HOME/bin` stays. */
  lemma DollarWithoutBraceKept(pre: string, post: string, env: map<string, string>)
    requires '$' !in pre && '$' !in post
    requires |post| == 0 || post[0] != '{'
    ensures FindAll(pre + ['$'] + post) == []
    ensures Substituted(pre + ['$'] + post, env) == pre + ['$'] + post
  {
    assert pre + ['$'] + post == pre + (['$'] + post);
    FindAllPrefix(pre, ['$'] + post);
    if |post| > 0 {
      assert (['$'] + post)[1..] == post;
      FindAllNoDollar(post);
    }
  }

  /** The loop replaces in the text as it stands: with A set to "${B}" and B to "x", the value
      "${A}${B}" becomes "xx", because B's turn also replaces the "${B}" that A's value brought in. */
  lemma SubstitutedChained()
    ensures Substituted("${A}${B}", map["A" := "${B}", "B" := "x"]) == "xx"
  {
    assert IsWord("A") && IsWord("B");
    assert Placeholder("A") == "${A}" && Placeholder("B") == "${B}";
    assert "${A}${B}" == Placeholder("A") + Placeholder("B");
    SubstitutedReplacedAgain("A", "B", "x");
  }

  /** A value that brings in another placeholder of the text is replaced again on that name's turn. */
  lemma SubstitutedReplacedAgain(a: string, b: string, x: string)
    requires IsWord(a) && IsWord(b) && a != b && '$' !in x
    ensures Substituted(Placeholder(a) + Placeholder(b), map[a := Placeholder(b), b := x]) == x + x
  {
    var env := map[a := Placeholder(b), b := x];
    var pa, pb := Placeholder(a), Placeholder(b);
    var gaps := ["", "", ""];
    assert gaps[1..] == ["", ""] && gaps[1..][1..] == [""];
    assert [a, b][1..] == [b] && [b][1..] == [];
    assert Template(gaps[1..][1..], []) == "";
    assert Template(gaps[1..], [b]) == "" + pb + "";
    assert Template(gaps, [a, b]) == "" + pa + ("" + pb + "");
    assert Template(gaps, [a, b]) == pa + pb;
    FindAllTemplate(gaps, [a, b]);
    ReplaceFront(pa, pb, pb);
    ReplaceOther(b, a, "", pb);
    assert pb + "" == pb;
    assert Replace(pa + pb, pa, pb) == pb + pb;
    ReplaceFront(pb, pb, x);
    ReplaceFront(pb, "", x);
    assert pb + "" == pb && x + "" == x;
    assert Replace(pb + pb, pb, x) == x + x;
    assert [a, b][..1] == [a] && [a][..0] == [] && [a, b][..2] == [a, b];
    assert ReplacedAll(pa + pb, [a], env) == pb + pb;
  }

  lemma ReplaceFront(p: string, rest: string, rep: string)
    requires |p| > 0
    ensures Replace(p + rest, p, rep) == rep + Replace(rest, p, rep)
  {
    assert p <= p + rest;
    assert (p + rest)[|p|..] == rest;
  }
}
