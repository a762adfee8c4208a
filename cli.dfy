/**
 * The command-line front end's argument handling: dropping the interpreter and
 * script paths from argv, grouping the remaining tokens under the `--` flag in
 * force, looking up the port, refusing to go on without one, and cutting the
 * file list out of a listing text before it is parsed as JSON.
 */
module Cli {
  import opened JsText
  import opened Runs
  import opened Decoders

  // ---------------------------------------------------------------------------
  // extractArguments

  /** `args.slice(2)`: argv without `node` and the script path. */
  function ExtractArguments(argv: seq<string>): (args: seq<string>)
    ensures |args| == if |argv| >= 2 then |argv| - 2 else 0
    ensures forall i :: 0 <= i < |args| ==> args[i] == argv[i + 2]
  {
    Slice(argv, 2, |argv|)
  }

  // ---------------------------------------------------------------------------
  // extractCommands

  /** `value.slice(0, 2) === '--'`. */
  predicate IsCommand(token: string)
  {
    Slice(token, 0, 2) == "--"
  }

  /** A key of the `commands` object: a `--` token, or `null` for the tokens
      before the first one (the object stores it under the text "null", which
      no `--` token can be). */
  type Key = Option<string>

  /** The two variables the `forEach` callback updates. */
  datatype Grouping = Grouping(commands: map<Key, seq<string>>, current: Key)

  /** One call of the `forEach` callback: a `--` token becomes the current key;
      a key seen for the first time gets an empty list and the token is dropped;
      otherwise the token is pushed onto the current key's list. */
  function Absorb(g: Grouping, value: string): (h: Grouping)
    ensures h.current == if IsCommand(value) then Some(value) else g.current
    ensures h.current in h.commands
    ensures h.commands[h.current] ==
      if h.current in g.commands then g.commands[h.current] + [value] else []
  {
    var current := if IsCommand(value) then Some(value) else g.current;
    if current !in g.commands then Grouping(g.commands[current := []], current)
    else Grouping(g.commands[current := g.commands[current] + [value]], current)
  }

  /** Every key other than the current one keeps its list, and no key but the
      current one appears. */
  lemma AbsorbKey(g: Grouping, value: string, key: Key)
    ensures var h := Absorb(g, value);
      (key in h.commands <==> key in g.commands || key == h.current) &&
      (key != h.current && key in g.commands ==> h.commands[key] == g.commands[key])
  {
  }

  /** The state after the callback has seen every token of `args`. */
  function Grouped(args: seq<string>): (g: Grouping)
    ensures args != [] ==> g.current in g.commands
    decreases |args|
  {
    if args == [] then Grouping(map[], None)
    else Absorb(Grouped(args[..|args| - 1]), args[|args| - 1])
  }

  /** What `extractCommands(args)` returns. */
  function Commands(args: seq<string>): (commands: map<Key, seq<string>>)
    ensures commands == map[] <==> args == []
  {
    Grouped(args).commands
  }

  /** `extractCommands`: the `forEach` loop over the tokens. */
  method ExtractCommands(args: seq<string>) returns (commands: map<Key, seq<string>>)
    ensures commands == Commands(args)
  {
    commands := map[];
    var current: Key := None;
    var i := 0;
    while i < |args|
      invariant i <= |args|
      invariant Grouped(args[..i]) == Grouping(commands, current)
    {
      var value := args[i];
      if IsCommand(value) {
        current := Some(value);
      }
      if current !in commands {
        commands := commands[current := []];
      } else {
        commands := commands[current := commands[current] + [value]];
      }
      assert args[..i + 1][..i] == args[..i];
      i := i + 1;
    }
    assert args[..i] == args;
  }

  // a reference reading of the grouping, token by token

  /** The key in force at position `i`: the last `--` token at or before it, or
      `null` when there is none. */
  function OwnerAt(args: seq<string>, i: nat): Key
    requires i < |args|
  {
    if IsCommand(args[i]) then Some(args[i])
    else if i == 0 then None
    else OwnerAt(args, i - 1)
  }

  /** Every token in force under `key`, in order. */
  function Owned(args: seq<string>, key: Key): seq<string>
    decreases |args|
  {
    if args == [] then []
    else Owned(args[..|args| - 1], key) + (if OwnerAt(args, |args| - 1) == key then [args[|args| - 1]] else [])
  }

  lemma {:induction false} OwnerAtPrefix(args: seq<string>, n: nat, i: nat)
    requires i < n <= |args|
    ensures OwnerAt(args[..n], i) == OwnerAt(args, i)
  {
    if !IsCommand(args[i]) && i > 0 {
      OwnerAtPrefix(args, n, i - 1);
    }
  }

  /** The grouping, read token by token: a key exists exactly when some token is in
      force under it, and its list is those tokens without the first (the token
      that created the key). */
  lemma {:induction false} CommandsOwned(args: seq<string>)
    ensures args != [] ==> Grouped(args).current == OwnerAt(args, |args| - 1)
    ensures forall key :: key in Commands(args) <==> Owned(args, key) != []
    ensures forall key :: key in Commands(args) ==> Commands(args)[key] == Owned(args, key)[1..]
    decreases |args|
  {
    if args != [] {
      var p, v := args[..|args| - 1], args[|args| - 1];
      CommandsOwned(p);
      var g := Grouped(p);
      var cur := if IsCommand(v) then Some(v) else g.current;
      if !IsCommand(v) && |p| > 0 {
        OwnerAtPrefix(args, |p|, |p| - 1);
        assert p[..|p|] == p;
      }
      assert OwnerAt(args, |p|) == cur;
      var m := Commands(args);
      assert m == Absorb(g, v).commands;
      forall key
        ensures key in m <==> Owned(args, key) != []
        ensures key in m ==> m[key] == Owned(args, key)[1..]
      {
        AbsorbKey(g, v, key);
        var before := Owned(p, key);
        assert Owned(args, key) == before + (if cur == key then [v] else []);
        if key == cur && cur in g.commands {
          TailSnoc(before, v);
        }
      }
    }
  }

  lemma TailSnoc<T>(a: seq<T>, x: T)
    requires |a| >= 1
    ensures (a + [x])[1..] == a[1..] + [x]
  {
  }

  /** The token at position `i` makes its `--` key, or `null`, a key. */
  lemma {:induction false} OwnedAt(args: seq<string>, i: nat)
    requires i < |args|
    ensures Owned(args, OwnerAt(args, i)) != []
    decreases |args|
  {
    if i < |args| - 1 {
      var p := args[..|args| - 1];
      OwnerAtPrefix(args, |p|, i);
      OwnedAt(p, i);
    }
  }

  /** A token in force under `key` shows that `key` is `null` with no `--` token
      before it, or a `--` token that occurs in `args`. */
  lemma {:induction false} OwnerWitness(args: seq<string>, i: nat)
    requires i < |args|
    ensures OwnerAt(args, i).None? ==> forall j :: 0 <= j <= i ==> !IsCommand(args[j])
    ensures OwnerAt(args, i).Some? ==> OwnerAt(args, i).value in args && IsCommand(OwnerAt(args, i).value)
  {
    if !IsCommand(args[i]) && i > 0 {
      OwnerWitness(args, i - 1);
    }
  }

  lemma {:induction false} OwnedWitness(args: seq<string>, key: Key)
    requires Owned(args, key) != []
    ensures exists i :: 0 <= i < |args| && OwnerAt(args, i) == key
    decreases |args|
  {
    var p := args[..|args| - 1];
    if OwnerAt(args, |args| - 1) != key {
      OwnedWitness(p, key);
      var i :| 0 <= i < |p| && OwnerAt(p, i) == key;
      OwnerAtPrefix(args, |p|, i);
    }
  }

  /** The keys are `null`, exactly when the first token is not a `--` token, and the
      `--` tokens of `args`. */
  lemma CommandKeys(args: seq<string>)
    ensures None in Commands(args) <==> args != [] && !IsCommand(args[0])
    ensures forall c :: Some(c) in Commands(args) <==> c in args && IsCommand(c)
  {
    CommandsOwned(args);
    if args != [] && !IsCommand(args[0]) {
      assert OwnerAt(args, 0) == None;
      OwnedAt(args, 0);
    }
    if None in Commands(args) {
      OwnedWitness(args, None);
      var i :| 0 <= i < |args| && OwnerAt(args, i) == None;
      OwnerWitness(args, i);
    }
    forall c
      ensures Some(c) in Commands(args) <==> c in args && IsCommand(c)
    {
      if c in args && IsCommand(c) {
        var i :| 0 <= i < |args| && args[i] == c;
        OwnedAt(args, i);
      }
      if Some(c) in Commands(args) {
        OwnedWitness(args, Some(c));
        var i :| 0 <= i < |args| && OwnerAt(args, i) == Some(c);
        OwnerWitness(args, i);
      }
    }
  }

  // counting what the lists hold

  /** The total length of the lists stored under `keys`. */
  ghost function Total(m: map<Key, seq<string>>, keys: set<Key>): nat
    requires keys <= m.Keys
    decreases keys
  {
    if keys == {} then 0
    else
      var k :| k in keys;
      |m[k]| + Total(m, keys - {k})
  }

  /** Any key can be counted first. */
  lemma {:induction false} TotalRemove(m: map<Key, seq<string>>, keys: set<Key>, k: Key)
    requires keys <= m.Keys && k in keys
    ensures Total(m, keys) == |m[k]| + Total(m, keys - {k})
    decreases keys
  {
    var j :| j in keys && Total(m, keys) == |m[j]| + Total(m, keys - {j});
    if j != k {
      TotalRemove(m, keys - {j}, k);
      TotalRemove(m, keys - {k}, j);
      assert keys - {j} - {k} == keys - {k} - {j};
    }
  }

  /** The total depends only on the lengths of the lists counted. */
  lemma {:induction false} TotalSame(m: map<Key, seq<string>>, m': map<Key, seq<string>>, keys: set<Key>)
    requires keys <= m.Keys && keys <= m'.Keys
    requires forall k :: k in keys ==> |m[k]| == |m'[k]|
    ensures Total(m, keys) == Total(m', keys)
    decreases keys
  {
    if keys != {} {
      var j :| j in keys && Total(m, keys) == |m[j]| + Total(m, keys - {j});
      TotalRemove(m', keys, j);
      TotalSame(m, m', keys - {j});
    }
  }

  /** Storing `v` under `k` adds its length and takes away that of the list it
      replaces. */
  lemma TotalUpdate(m: map<Key, seq<string>>, k: Key, v: seq<string>)
    ensures k in m ==> Total(m[k := v], m[k := v].Keys) + |m[k]| == Total(m, m.Keys) + |v|
    ensures k !in m ==> Total(m[k := v], m[k := v].Keys) == Total(m, m.Keys) + |v|
  {
    var m' := m[k := v];
    TotalRemove(m', m'.Keys, k);
    var rest := m'.Keys - {k};
    TotalSame(m', m, rest);
    if k in m {
      TotalRemove(m, m.Keys, k);
      assert m.Keys - {k} == rest;
    } else {
      assert m.Keys == rest;
    }
  }

  /** Every token but the one that created a key ends up in a list: the lists hold
      `|args|` minus the number of keys tokens between them. */
  lemma {:induction false} CommandsCount(args: seq<string>)
    ensures Total(Commands(args), Commands(args).Keys) + |Commands(args).Keys| == |args|
    decreases |args|
  {
    if args != [] {
      var p, v := args[..|args| - 1], args[|args| - 1];
      CommandsCount(p);
      var g := Grouped(p);
      var cur := if IsCommand(v) then Some(v) else g.current;
      if cur !in g.commands {
        TotalUpdate(g.commands, cur, []);
        assert g.commands[cur := []].Keys == g.commands.Keys + {cur};
      } else {
        TotalUpdate(g.commands, cur, g.commands[cur] + [v]);
        assert g.commands[cur := g.commands[cur] + [v]].Keys == g.commands.Keys;
      }
    }
  }

  // ---------------------------------------------------------------------------
  // the port

  /** `commands['--port'] ? commands['--port'][0] : null`: an existing key with an
      empty list is truthy and its first element `undefined`. */
  function PortOf(commands: map<Key, seq<string>>): (port: Option<string>)
    ensures port.Some? <==> Some("--port") in commands && commands[Some("--port")] != []
    ensures port.Some? ==> port.value == commands[Some("--port")][0]
  {
    if Some("--port") in commands && commands[Some("--port")] != [] then Some(commands[Some("--port")][0])
    else None
  }

  /** `ensurePort`: a missing or empty port throws. */
  function EnsurePort(port: Option<string>): (r: Outcome<()>)
    ensures r.Done? <==> port.Some? && port.value != ""
    ensures !r.Done? ==> r == Failed(Message("You must specify a port."))
  {
    if port.None? || port.value == "" then Failed(Message("You must specify a port.")) else Done(())
  }

  /** The port is the second token in force under `--port`: the one after the flag,
      unless another flag intervened. */
  lemma PortIsSecondOwned(args: seq<string>)
    ensures PortOf(Commands(args)) ==
      if |Owned(args, Some("--port"))| >= 2 then Some(Owned(args, Some("--port"))[1]) else None
  {
    CommandsOwned(args);
  }

  /** `--port p` with `p` not a flag, and no `--port` before it, sets the port to `p`. */
  lemma PortAfterFlag(pre: seq<string>, p: string, rest: seq<string>)
    requires "--port" !in pre && !IsCommand(p)
    ensures PortOf(Commands(pre + ["--port", p] + rest)) == Some(p)
  {
    var args := pre + ["--port", p] + rest;
    var key := Some("--port");
    var flagged, given := pre + ["--port"], pre + ["--port", p];
    assert IsCommand("--port");
    OwnedNone(pre, key);
    assert flagged[..|pre|] == pre;
    assert OwnerAt(flagged, |pre|) == key;
    assert Owned(flagged, key) == ["--port"];
    assert given[..|flagged|] == flagged;
    assert OwnerAt(given, |flagged|) == key;
    assert Owned(given, key) == ["--port", p];
    assert args[..|given|] == given;
    OwnedPrefix(args, |given|, key);
    PortIsSecondOwned(args);
  }

  /** No token is in force under a `--` token that does not occur. */
  lemma {:induction false} OwnedNone(args: seq<string>, key: Key)
    requires key.Some? && key.value !in args
    ensures Owned(args, key) == []
    decreases |args|
  {
    if args != [] {
      var p := args[..|args| - 1];
      OwnedNone(p, key);
      OwnerWitness(args, |args| - 1);
    }
  }

  /** What is in force under `key` in a prefix of `args` starts what is in force in all of it. */
  lemma {:induction false} OwnedPrefix(args: seq<string>, n: nat, key: Key)
    requires n <= |args|
    ensures |Owned(args[..n], key)| <= |Owned(args, key)|
    ensures Owned(args, key)[..|Owned(args[..n], key)|] == Owned(args[..n], key)
    decreases |args|
  {
    if n < |args| {
      var p := args[..|args| - 1];
      OwnedPrefix(p, n, key);
      assert p[..n] == args[..n];
    } else {
      assert args[..n] == args;
    }
  }

  /** A port the CLI accepts was given with a `--port` flag. */
  lemma PortNeedsFlag(args: seq<string>)
    requires EnsurePort(PortOf(Commands(args))).Done?
    ensures "--port" in args
  {
    CommandKeys(args);
    assert IsCommand("--port");
  }

  // ---------------------------------------------------------------------------
  // extractFileArray

  /** `t.slice(0, t.indexOf(']') + 1)`: `t` up to and including its first `]`, or
      `''` when it has none. */
  function UpToBracket(t: string): (u: string)
    ensures |u| <= |t| && t[..|u|] == u
    ensures u != [] ==> u[|u| - 1] == ']' && ']' !in u[..|u| - 1]
    ensures u == [] <==> ']' !in t
  {
    IndexOfElem(t, ']');
    Slice(t, 0, IndexOf(t, "]") + 1)
  }

  /** The text `extractFileArray` hands to `JSON.parse`: single quotes made
      double, the third `OK`-separated segment (or `''`), cut just after its
      first `]` (or to `''` when it has none). */
  function ExtractFileArray(output: string): (files: string)
    ensures '\'' !in files
    ensures files != [] ==> files[|files| - 1] == ']' && ']' !in files[..|files| - 1]
    ensures NoOk(files)
  {
    var quoted := ReplaceChar(output, '\'', '"');
    var parts := Split(quoted, "OK");
    SplitKeeps(quoted, "OK", '\'');
    SplitPartsClean(quoted, "OK");
    var third := if |parts| > 2 then parts[2] else "";
    NoOkIndex(third);
    var files := UpToBracket(third);
    assert forall i :: OkAt(files, i) ==> OkAt(third, i);
    assert forall i :: 0 <= i < |files| ==> files[i] == third[i];
    files
  }

  /** No part of a split holds an element the text does not. */
  lemma {:induction false} SplitKeeps<T>(s: seq<T>, sep: seq<T>, x: T)
    requires |sep| > 0 && x !in s
    ensures forall k :: 0 <= k < |Split(s, sep)| ==> x !in Split(s, sep)[k]
    decreases |s|
  {
    var i := IndexOf(s, sep);
    if i != -1 {
      var rest := s[i + |sep|..];
      assert x !in s[..i];
      assert x !in rest;
      SplitKeeps(rest, sep, x);
      assert Split(s, sep) == [s[..i]] + Split(rest, sep);
    }
  }

  /** A text without `OK` that does not end in `O` begins the first part of any split
      it starts. */
  lemma SplitKeepsHead(list: string, after: string)
    requires NoOk(list) && list != [] && list[|list| - 1] != 'O'
    ensures var head := Split(list + after, "OK")[0];
      |list| <= |head| && head[..|list|] == list
  {
    var s := list + after;
    OkOccurs(s);
    forall j | 0 <= j < |list|
      ensures !OkAt(s, j)
    {
      assert s[j] == list[j];
      if j + 1 < |list| {
        assert s[j + 1] == list[j + 1];
        assert !OkAt(list, j);
      }
    }
    var i := IndexOf(s, "OK");
    IndexOfSpec(s, "OK");
    if i != -1 {
      assert s[..i][..|list|] == list;
    } else {
      assert s[..|list|] == list;
    }
  }

  /** Quote replacement keeps the `OK`s and `]`s where they were. */
  lemma QuotesKeep(t: string)
    ensures NoOk(t) ==> NoOk(ReplaceChar(t, '\'', '"'))
    ensures ']' !in t ==> ']' !in ReplaceChar(t, '\'', '"')
  {
    var q := ReplaceChar(t, '\'', '"');
    forall i | OkAt(q, i)
      ensures OkAt(t, i)
    {
    }
    if ']' in q {
      var i :| 0 <= i < |q| && q[i] == ']';
      assert t[i] == ']';
    }
  }

  lemma ReplaceAppend(a: string, b: string)
    ensures ReplaceChar(a + b, '\'', '"') == ReplaceChar(a, '\'', '"') + ReplaceChar(b, '\'', '"')
  {
  }

  lemma ReplaceNone(a: string)
    requires '\'' !in a
    ensures ReplaceChar(a, '\'', '"') == a
  {
  }

  /** Brackets around a text without `OK` add none. */
  lemma NoOkInList(items: string)
    requires NoOk(items)
    ensures NoOk("[" + items + "]")
  {
    var list := "[" + items + "]";
    forall i | OkAt(list, i)
      ensures false
    {
      assert list[i] == 'O' && list[i + 1] == 'K';
      assert 0 < i && i + 1 < |list| - 1;
      assert OkAt(items, i - 1);
    }
  }

  /** Quote replacement on such a text touches only the list and what follows it. */
  lemma QuotedListing(before: string, banner: string, items: string, after: string)
    requires '\'' !in before && '\'' !in banner
    ensures ReplaceChar(before + "OK" + banner + "OK" + "[" + items + "]" + after, '\'', '"') ==
      before + "OK" + (banner + "OK" + ("[" + ReplaceChar(items, '\'', '"') + "]" + ReplaceChar(after, '\'', '"')))
  {
    var head := before + "OK" + banner + "OK";
    var open, close := "[", "]";
    assert '\'' !in head;
    ReplaceAppend(head + open + items + close, after);
    ReplaceAppend(head + open + items, close);
    ReplaceAppend(head + open, items);
    ReplaceAppend(head, open);
    ReplaceNone(head);
    ReplaceNone(open);
    ReplaceNone(close);
    Regroup(before, "OK", banner, "OK", open, ReplaceChar(items, '\'', '"'), close, ReplaceChar(after, '\'', '"'));
  }

  lemma Regroup<T>(a: seq<T>, b: seq<T>, c: seq<T>, d: seq<T>, e: seq<T>, f: seq<T>, g: seq<T>, h: seq<T>)
    ensures a + b + c + d + e + f + g + h == a + b + (c + d + (e + f + g + h))
  {
    AppendAssoc(a + b + c + d, e + f + g, h);
    AppendAssoc(a + b + c + d, e + f, g);
    AppendAssoc(a + b + c + d, e, f);
    AppendAssoc(a + b + c, d, e + f + g + h);
    AppendAssoc(a + b, c, d + (e + f + g + h));
  }

  /** On text of the form `before OK banner OK [items] after` (neither `before` nor
      `banner` holding `OK` or a single quote, `items` holding neither `OK` nor `]`),
      the text handed to `JSON.parse` is the list with its single quotes made double. */
  lemma FileArrayOfListing(before: string, banner: string, items: string, after: string)
    requires NoOk(before) && '\'' !in before
    requires NoOk(banner) && '\'' !in banner
    requires NoOk(items) && ']' !in items
    ensures ExtractFileArray(before + "OK" + banner + "OK" + "[" + items + "]" + after) ==
      "[" + ReplaceChar(items, '\'', '"') + "]"
  {
    var items' := ReplaceChar(items, '\'', '"');
    var list := "[" + items' + "]";
    var after' := ReplaceChar(after, '\'', '"');
    QuotedListing(before, banner, items, after);
    var q := ReplaceChar(before + "OK" + banner + "OK" + "[" + items + "]" + after, '\'', '"');
    QuotesKeep(items);
    NoOkInList(items');
    SplitAtFirst(before, banner + "OK" + (list + after'));
    SplitAtFirst(banner, list + after');
    SplitKeepsHead(list, after');
    var third := Split(list + after', "OK")[0];
    ThirdOf(Split(q, "OK"), before, banner, Split(list + after', "OK"));
    assert list[..|list| - 1] == "[" + items';
    BracketCut(list, third);
  }

  /** Cutting a text that starts with `list` after its first `]` gives `list` when
      `list` ends with its only `]`. */
  lemma BracketCut(list: string, t: string)
    requires list != [] && list[|list| - 1] == ']' && ']' !in list[..|list| - 1]
    requires |list| <= |t| && t[..|list|] == list
    ensures UpToBracket(t) == list
  {
    var u := UpToBracket(t);
    assert t[|list| - 1] == ']';
    assert u == t[..|list|];
  }

  /** A text without any `OK`, such as the bare list `fs_ls` prints, gives `''`. */
  lemma FileArrayWithoutMarkers(output: string)
    requires NoOk(output)
    ensures ExtractFileArray(output) == ""
  {
    QuotesKeep(output);
    NoOkIndex(ReplaceChar(output, '\'', '"'));
  }
}
