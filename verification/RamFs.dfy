/** The RAM file system: a tree of named nodes, and what a path leads to. */
module RamFs {

  const MAX_NAME := 32
  const MAX_CHILDREN := 16
  const MAX_PATH := 256

  // ---------------------------------------------------------------- paths

  /** Leading slashes. */
  function Slashes(s: string): (n: nat)
    ensures n <= |s| && (n < |s| ==> s[n] != '/') && forall i :: 0 <= i < n ==> s[i] == '/'
  {
    if s == [] || s[0] != '/' then 0 else 1 + Slashes(s[1..])
  }

  /** Characters before the first slash. */
  function Plain(s: string): (n: nat)
    ensures n <= |s| && (n < |s| ==> s[n] == '/') && forall i :: 0 <= i < n ==> s[i] != '/'
  {
    if s == [] || s[0] == '/' then 0 else 1 + Plain(s[1..])
  }

  /** The C string `str` stands at `i` of the buffer. */
  ghost predicate StrAt(buf: seq<char>, i: nat, str: string)
  {
    && i + |str| < |buf| && buf[i + |str|] == '\0'
    && forall k :: 0 <= k < |str| ==> str[k] != '\0' && buf[i + k] == str[k]
  }

  /** What follows the first component and its slash. */
  function Behind(s: string): (r: string)
    ensures |r| <= |s|
  {
    if Plain(s) < |s| then s[Plain(s) + 1..] else []
  }

  /** The components of a path. */
  function Tokens(s: string): (ts: seq<string>)
    decreases |s|
  {
    var t := s[Slashes(s)..];
    if t == [] then [] else [t[..Plain(t)]] + Tokens(Behind(t))
  }

  lemma TokensStep(s: string)
    ensures var t := s[Slashes(s)..]; Tokens(s) == if t == [] then [] else [t[..Plain(t)]] + Tokens(Behind(t))
  {
  }

  /** The first component of a path that starts with none of its slashes. */
  lemma TokensFirst(s: string, k: nat)
    requires 0 < k <= |s| && (k < |s| ==> s[k] == '/') && '/' !in s[..k]
    ensures Tokens(s) == [s[..k]] + if k < |s| then Tokens(s[k + 1..]) else []
  {
    assert forall i :: 0 <= i < k ==> s[i] == s[..k][i];
    assert Slashes(s) == 0 && Plain(s) == k;
    assert s[0..] == s;
  }

  /** A leading slash makes no difference. */
  lemma TokensSlash(s: string)
    ensures Tokens("/" + s) == Tokens(s) && Tokens("") == []
  {
    var r := "/" + s;
    assert r[1..] == s;
    assert r[Slashes(r)..] == s[Slashes(s)..];
  }

  lemma TokensOn(a: string, b: string, k: nat)
    requires 0 < k <= |a| && (k < |a| ==> a[k] == '/') && '/' !in a[..k]
    ensures Tokens(a) == [a[..k]] + if k < |a| then Tokens(a[k + 1..]) else []
    ensures Tokens(a + "/" + b) == [a[..k]] + Tokens(if k < |a| then a[k + 1..] + "/" + b else b)
  {
    hide Tokens;
    var s := a + "/" + b;
    TokensFirst(a, k);
    assert s[..k] == a[..k] && s[k] == '/';
    TokensFirst(s, k);
    assert s[k + 1..] == if k < |a| then a[k + 1..] + "/" + b else b;
  }

  /** What the components of any path are: a path without a slash is its own one component, unless it is empty, and the
      components on the two sides of a slash follow each other. */
  lemma {:induction false} TokensExact(a: string, b: string)
    ensures a != "" && '/' !in a ==> Tokens(a) == [a]
    ensures Tokens(a + "/" + b) == Tokens(a) + Tokens(b)
    decreases |a|
  {
    hide Tokens;
    var s := a + "/" + b;
    TokensSlash(b);
    if a == "" {
      assert s == "/" + b;
    } else if a[0] == '/' {
      var c := a[1..];
      TokensSlash(c);
      TokensSlash(c + "/" + b);
      assert a == "/" + c && s == "/" + (c + "/" + b);
      TokensExact(c, b);
    } else {
      var k := Plain(a);
      TokensOn(a, b, k);
      assert a[..|a|] == a;
      if k < |a| {
        TokensExact(a[k + 1..], b);
        assert [a[..k]] + (Tokens(a[k + 1..]) + Tokens(b)) == ([a[..k]] + Tokens(a[k + 1..])) + Tokens(b);
      }
    }
  }

  // ---------------------------------------------------------------- trees

  /** What a node says of itself; `level` is its distance from the root. */
  datatype Info = Info(name: string, dir: bool, parent: Node?, children: seq<Node>, level: nat)

  /** All nodes, and what they say. */
  type Tree = map<Node, Info>

  /** Every node is listed by its parent, knows it, and lies one level below it; no directory is overfull. */
  ghost predicate Good(t: Tree, root: Node)
  {
    && root in t && t[root].parent == null && t[root].level == 0
    && (forall n :: n in t ==> |t[n].name| < MAX_NAME && |t[n].children| <= MAX_CHILDREN)
    && (forall n, i :: n in t && 0 <= i < |t[n].children| ==> ChildOk(t, n, t[n].children[i]))
    && (forall n, i, j :: n in t && 0 <= i < j < |t[n].children| ==> t[n].children[i] != t[n].children[j])
    && (forall n :: n in t && n != root ==> t[n].parent != null && t[n].parent in t && n in t[t[n].parent].children)
  }

  ghost predicate ChildOk(t: Tree, n: Node, c: Node)
    requires n in t
  {
    c in t && t[c].parent == n && t[c].level == t[n].level + 1
  }

  /** The first child from `i` on with that name; the number of children when there is none. */
  ghost function FindFrom(t: Tree, cs: seq<Node>, name: string, i: nat): (k: nat)
    requires i <= |cs| && forall j :: 0 <= j < |cs| ==> cs[j] in t
    ensures i <= k <= |cs| && (k < |cs| ==> t[cs[k]].name == name)
    ensures forall j :: i <= j < k ==> t[cs[j]].name != name
    decreases |cs| - i
  {
    if i == |cs| || t[cs[i]].name == name then i else FindFrom(t, cs, name, i + 1)
  }

  lemma ChildrenIn(t: Tree, root: Node, n: Node)
    requires Good(t, root) && n in t
    ensures forall i :: 0 <= i < |t[n].children| ==> ChildOk(t, n, t[n].children[i])
  {
  }

  /** The child of `n` that a component leads to. */
  ghost function Child(t: Tree, root: Node, n: Node, name: string): (c: Node?)
    requires Good(t, root) && n in t
    ensures c != null ==> c in t && t[c].name == name && t[c].level == t[n].level + 1 && t[c].parent == n
  {
    ChildrenIn(t, root, n);
    var cs := t[n].children;
    var k := FindFrom(t, cs, name, 0);
    if k < |cs| then cs[k] else null
  }

  /** Where a list of components leads from `n`; null when it leads nowhere. */
  ghost function Resolve(t: Tree, root: Node, n: Node, ts: seq<string>): (r: Node?)
    requires Good(t, root) && n in t
    ensures r != null ==> r in t && t[r].level == t[n].level + |ts|
    decreases |ts|
  {
    if ts == [] then n else
      var c := Child(t, root, n, ts[0]);
      if c == null then null else Resolve(t, root, c, ts[1..])
  }

  /** The tree is acyclic: going down never leads back. */
  lemma NoCycle(t: Tree, root: Node, n: Node, ts: seq<string>)
    requires Good(t, root) && n in t && ts != []
    ensures Resolve(t, root, n, ts) != n
  {
  }

  /** A resolved list of components and one more. */
  lemma {:induction false} ResolveSnoc(t: Tree, root: Node, n: Node, ts: seq<string>, name: string)
    requires Good(t, root) && n in t && Resolve(t, root, n, ts) != null
    ensures Resolve(t, root, n, ts + [name]) == Child(t, root, Resolve(t, root, n, ts), name)
    decreases |ts|
  {
    hide Good, Child;
    if ts == [] {
      assert (ts + [name])[1..] == [];
    } else {
      ResolveSnoc(t, root, Child(t, root, n, ts[0]), ts[1..], name);
      assert (ts + [name])[1..] == ts[1..] + [name];
    }
  }

  /** A component that is too long for a stored name leads nowhere. */
  lemma {:induction false} TooLong(t: Tree, root: Node, n: Node, ts: seq<string>)
    requires Good(t, root) && n in t && exists i :: 0 <= i < |ts| && |ts[i]| >= MAX_NAME
    ensures Resolve(t, root, n, ts) == null
    decreases |ts|
  {
    var c := Child(t, root, n, ts[0]);
    if c != null {
      var i :| 0 <= i < |ts| && |ts[i]| >= MAX_NAME;
      assert ts[1..][i - 1] == ts[i];
      TooLong(t, root, c, ts[1..]);
    }
  }

  // ---------------------------------------------------------------- adding a node

  /** `t` with a new, empty directory behind the children of `at`. */
  ghost function Grown(t: Tree, at: Node, node: Node, name: string): (t': Tree)
    requires at in t
  {
    t[at := t[at].(children := t[at].children + [node])][node := Info(name, true, at, [], t[at].level + 1)]
  }

  lemma GrownSize(t: Tree, at: Node, node: Node, name: string)
    requires at in t && node !in t
    ensures |Grown(t, at, node, name)| == |t| + 1
  {
    assert Grown(t, at, node, name).Keys == t.Keys + {node};
    assert |Grown(t, at, node, name)| == |t.Keys + {node}|;
  }

  /** Adding a node keeps the tree sound. */
  lemma GrownGood(t: Tree, root: Node, at: Node, node: Node, name: string)
    requires Good(t, root) && at in t && node !in t && |name| < MAX_NAME && |t[at].children| < MAX_CHILDREN
    ensures Good(Grown(t, at, node, name), root)
  {
    GrownChildren(t, root, at, node, name);
    GrownDistinct(t, root, at, node, name);
    GrownListed(t, root, at, node, name);
  }

  lemma GrownChildren(t: Tree, root: Node, at: Node, node: Node, name: string)
    requires Good(t, root) && at in t && node !in t
    ensures
      var t' := Grown(t, at, node, name);
      forall n, i :: n in t' && 0 <= i < |t'[n].children| ==> ChildOk(t', n, t'[n].children[i])
  {
    var t' := Grown(t, at, node, name);
    forall n, i | n in t' && 0 <= i < |t'[n].children| ensures ChildOk(t', n, t'[n].children[i]) {
      if n in t && i < |t[n].children| { assert ChildOk(t, n, t[n].children[i]); }
    }
  }

  lemma GrownDistinct(t: Tree, root: Node, at: Node, node: Node, name: string)
    requires Good(t, root) && at in t && node !in t
    ensures
      var t' := Grown(t, at, node, name);
      forall n, i, j :: n in t' && 0 <= i < j < |t'[n].children| ==> t'[n].children[i] != t'[n].children[j]
  {
    ChildrenIn(t, root, at);
  }

  lemma GrownListed(t: Tree, root: Node, at: Node, node: Node, name: string)
    requires Good(t, root) && at in t && node !in t
    ensures
      var t' := Grown(t, at, node, name);
      forall n :: n in t' && n != root ==> t'[n].parent != null && t'[n].parent in t' && n in t'[t'[n].parent].children
  {
    var t' := Grown(t, at, node, name);
    forall n | n in t' && n != root
      ensures t'[n].parent != null && t'[n].parent in t' && n in t'[t'[n].parent].children
    {
      if n == node {
        assert t'[at].children[|t[at].children|] == node;
      } else {
        var p := t[n].parent;
        assert n in t[p].children && forall i :: 0 <= i < |t[p].children| ==> t'[p].children[i] == t[p].children[i];
      }
    }
  }

  lemma {:induction false} FindGrown(t: Tree, t': Tree, cs: seq<Node>, cs': seq<Node>, name: string, i: nat)
    requires i <= |cs| && cs <= cs' && (forall j :: 0 <= j < |cs| ==> cs[j] in t) && (forall j :: 0 <= j < |cs'| ==> cs'[j] in t')
    requires forall j :: 0 <= j < |cs| ==> t'[cs[j]].name == t[cs[j]].name
    ensures FindFrom(t, cs, name, i) < |cs| ==> FindFrom(t', cs', name, i) == FindFrom(t, cs, name, i)
    ensures FindFrom(t, cs, name, i) == |cs| ==> FindFrom(t', cs', name, i) >= |cs|
    decreases |cs| - i
  {
    if i < |cs| && t[cs[i]].name != name { FindGrown(t, t', cs, cs', name, i + 1); }
  }

  /** Adding a node takes no child away. */
  lemma ChildGrown(t: Tree, root: Node, at: Node, node: Node, stored: string, n: Node, name: string)
    requires Good(t, root) && at in t && node !in t && |stored| < MAX_NAME && |t[at].children| < MAX_CHILDREN && n in t
    ensures Good(Grown(t, at, node, stored), root)
    ensures Child(t, root, n, name) != null ==>
      Child(Grown(t, at, node, stored), root, n, name) == Child(t, root, n, name)
    ensures n == at && Child(t, root, at, name) == null ==>
      Child(Grown(t, at, node, stored), root, at, name) == if stored == name then node else null
  {
    hide Good;
    GrownGood(t, root, at, node, stored);
    var t' := Grown(t, at, node, stored);
    var cs, cs' := t[n].children, t'[n].children;
    ChildrenIn(t, root, n);
    ChildrenIn(t', root, n);
    FindGrown(t, t', cs, cs', name, 0);
    if n == at && FindFrom(t, cs, name, 0) == |cs| {
      assert cs'[|cs|] == node && t'[node].name == stored;
      assert FindFrom(t', cs', name, 0) == if stored == name then |cs| else |cs| + 1;
    }
  }

  /** Adding only adds: every path that led somewhere still leads to the same node. */
  lemma {:induction false} ResolveGrown(t: Tree, root: Node, at: Node, node: Node, stored: string, n: Node, ts: seq<string>)
    requires Good(t, root) && at in t && node !in t && |stored| < MAX_NAME && |t[at].children| < MAX_CHILDREN && n in t
    ensures Good(Grown(t, at, node, stored), root)
    ensures Resolve(t, root, n, ts) != null ==>
      Resolve(Grown(t, at, node, stored), root, n, ts) == Resolve(t, root, n, ts)
    decreases |ts|
  {
    GrownGood(t, root, at, node, stored);
    if ts != [] {
      ChildGrown(t, root, at, node, stored, n, ts[0]);
      var c := Child(t, root, n, ts[0]);
      if c != null { ResolveGrown(t, root, at, node, stored, c, ts[1..]); }
    }
  }

  /** Everything that resolves in `t` resolves to the same node in `t'`. */
  ghost predicate Keeps(t: Tree, t': Tree, root: Node)
  {
    && Good(t, root) && Good(t', root) && t.Keys <= t'.Keys
    && forall n, ts :: n in t && Resolve(t, root, n, ts) != null ==> Resolve(t', root, n, ts) == Resolve(t, root, n, ts)
  }

  lemma GrownKeeps(t: Tree, root: Node, at: Node, node: Node, stored: string)
    requires Good(t, root) && at in t && node !in t && |stored| < MAX_NAME && |t[at].children| < MAX_CHILDREN
    ensures Keeps(t, Grown(t, at, node, stored), root)
  {
    GrownGood(t, root, at, node, stored);
    forall n, ts | n in t && Resolve(t, root, n, ts) != null
      ensures Resolve(Grown(t, at, node, stored), root, n, ts) == Resolve(t, root, n, ts)
    {
      ResolveGrown(t, root, at, node, stored, n, ts);
    }
  }

  class Node {
    var name: string
    var dir: bool
    var parent: Node?
    var children: seq<Node>
    ghost var level: nat

    constructor (n: string, p: Node?, ghost l: nat)
      ensures name == n && dir && parent == p && children == [] && level == l
    {
      name, dir, parent, children, level := n, true, p, [], l;
    }
  }

  /** The first loop of `next_token`. */
  method SkipSlashes(buf: array<char>, p: nat, ghost str: string) returns (start: nat)
    requires StrAt(buf[..], p, str)
    ensures start == p + Slashes(str) && StrAt(buf[..], start, str[Slashes(str)..])
  {
    hide Slashes;
    start := p;
    while buf[start] == '/'
      invariant p <= start <= p + Slashes(str)
      invariant start - p < |str| ==> buf[start] == str[start - p]
      decreases p + |str| - start
    {
      start := start + 1;
      assert start - p < |str| ==> str[start - p] != '\0';
    }
  }

  /** The rest of `next_token`: finds the end of the component and overwrites the slash there. */
  method CutComponent(buf: array<char>, start: nat, ghost t: string) returns (next: nat)
    requires StrAt(buf[..], start, t)
    modifies buf
    ensures StrAt(buf[..], start, t[..Plain(t)]) && StrAt(buf[..], next, Behind(t))
  {
    hide Plain, Behind;
    ghost var b := buf[..];
    var end := start;
    while buf[end] != '\0' && buf[end] != '/'
      invariant start <= end <= start + Plain(t)
      invariant end - start < |t| ==> buf[end] == t[end - start]
      decreases start + |t| - end
    {
      end := end + 1;
      assert end - start < |t| ==> t[end - start] != '\0';
    }
    if buf[end] == '/' {
      buf[end] := '\0';
      next := end + 1;
    } else {
      next := end;
    }
    assert end == start + Plain(t);
    CutString(b, start, t);
  }

  lemma BehindLength(t: string)
    ensures |Behind(t)| == if Plain(t) < |t| then |t| - Plain(t) - 1 else 0
  {
  }

  lemma BehindAt(t: string, k: nat)
    requires k < |Behind(t)|
    ensures Plain(t) + 1 + k < |t| && Behind(t)[k] == t[Plain(t) + 1 + k]
  {
  }

  /** A zero over the slash makes two strings of one. */
  lemma CutString(b: seq<char>, start: nat, t: string)
    requires StrAt(b, start, t)
    ensures
      var end := start + Plain(t);
      if Plain(t) < |t| then
        StrAt(b[end := '\0'], start, t[..Plain(t)]) && StrAt(b[end := '\0'], end + 1, Behind(t))
      else StrAt(b, start, t[..Plain(t)]) && StrAt(b, end, Behind(t))
  {
    var n, r := Plain(t), Behind(t);
    hide Plain, Behind;
    BehindLength(t);
    forall k | 0 <= k < |r| ensures r[k] == t[n + 1 + k] {
      BehindAt(t, k);
    }
    if n < |t| {
      var b' := b[start + n := '\0'];
      assert StrAt(b', start, t[..n]);
      assert b'[start + n + 1 + |r|] == '\0';
      assert forall k :: 0 <= k < |r| ==> r[k] != '\0' && b'[start + n + 1 + k] == r[k];
    }
  }

  /** `next_token`: cuts the first component off the string at `p`. */
  method NextToken(buf: array<char>, p: nat, ghost str: string) returns (found: bool, start: nat, next: nat)
    requires StrAt(buf[..], p, str)
    modifies buf
    ensures found <==> str[Slashes(str)..] != []
    ensures found ==>
      var t := str[Slashes(str)..];
      StrAt(buf[..], start, t[..Plain(t)]) && StrAt(buf[..], next, Behind(t))
    ensures !found ==> StrAt(buf[..], next, [])
  {
    if buf[p] == '\0' {
      return false, p, p;
    }
    start := SkipSlashes(buf, p, str);
    if buf[start] == '\0' {
      return false, start, start;
    }
    next := CutComponent(buf, start, str[Slashes(str)..]);
    found := true;
  }

  // ---------------------------------------------------------------- the file system

  /** The part of a path that `ramfs_find_node` looks at: up to 255 characters. */
  function Cut(path: string): (r: string)
    ensures r <= path && (|path| < 256 ==> r == path) && (|path| >= 256 ==> |r| == 255)
  {
    if |path| < MAX_PATH then path else path[..MAX_PATH - 1]
  }

  /** The name a node is given for a component. */
  function StoredName(token: string): (r: string)
    ensures |r| < MAX_NAME && (r == token <==> |token| < MAX_NAME)
    ensures r <= token && |r| == if |token| < 32 then |token| else 31
  {
    if |token| < MAX_NAME then token else token[..MAX_NAME - 1]
  }

  predicate AllShort(ts: seq<string>) { forall i :: 0 <= i < |ts| ==> |ts[i]| < MAX_NAME }

  lemma KeepsRefl(t: Tree, root: Node)
    requires Good(t, root)
    ensures Keeps(t, t, root)
  {
  }

  lemma KeepsTrans(t: Tree, t': Tree, t'': Tree, root: Node)
    requires Keeps(t, t', root) && Keeps(t', t'', root)
    ensures Keeps(t, t'', root)
  {
    hide Good, Resolve;
  }

  /** Past a component that leads nowhere nothing leads anywhere. */
  lemma {:induction false} DeadEnd(t: Tree, root: Node, n: Node, ts: seq<string>, name: string, rest: seq<string>)
    requires Good(t, root) && n in t && Resolve(t, root, n, ts) != null
    requires Child(t, root, Resolve(t, root, n, ts), name) == null
    ensures Resolve(t, root, n, ts + [name] + rest) == null
    decreases |ts|
  {
    hide Good, Child;
    var all := ts + [name] + rest;
    if ts == [] {
      assert all[0] == name;
    } else {
      DeadEnd(t, root, Child(t, root, n, ts[0]), ts[1..], name, rest);
      assert all[0] == ts[0] && all[1..] == ts[1..] + [name] + rest;
    }
  }

  /** How far a walk over `all` has come: to `cur`, over the components `done`. */
  ghost predicate Walking(t0: Tree, t: Tree, root: Node, cur: Node, done: seq<string>, rest: seq<string>)
  {
    && Keeps(t0, t, root) && cur in t
    && (AllShort(done) ==> Resolve(t, root, root, done) == cur)
    && (Resolve(t0, root, root, done + rest) != null ==> t == t0 && Resolve(t, root, root, done) == cur)
  }

  lemma RootIn(t: Tree, root: Node)
    requires Good(t, root)
    ensures root in t
  {
  }

  /** One component further into an existing child. */
  lemma WalkDown(t0: Tree, t: Tree, root: Node, cur: Node, done: seq<string>, name: string, rest: seq<string>)
    requires Walking(t0, t, root, cur, done, [name] + rest) && Good(t, root) && Child(t, root, cur, name) != null
    ensures Walking(t0, t, root, Child(t, root, cur, name), done + [name], rest)
  {
    hide Good, Child, Resolve, Keeps;
    RootIn(t, root);
    assert done + ([name] + rest) == (done + [name]) + rest;
    ShortPrefix(done, name);
    if Resolve(t, root, root, done) == cur { ResolveSnoc(t, root, root, done, name); }
  }

  lemma ShortPrefix(done: seq<string>, name: string)
    ensures AllShort(done + [name]) <==> AllShort(done) && |name| < MAX_NAME
  {
    var d := done + [name];
    assert d[|done|] == name && forall i :: 0 <= i < |done| ==> d[i] == done[i];
  }

  /** One component further into a new child. */
  lemma WalkNew(t0: Tree, t: Tree, root: Node, cur: Node, node: Node, done: seq<string>, name: string, rest: seq<string>)
    requires Walking(t0, t, root, cur, done, [name] + rest) && Good(t, root) && Child(t, root, cur, name) == null
    requires node !in t && |t[cur].children| < MAX_CHILDREN
    ensures Good(Grown(t, cur, node, StoredName(name)), root)
    ensures Walking(t0, Grown(t, cur, node, StoredName(name)), root, node, done + [name], rest)
  {
    hide Good, Child, Resolve, Keeps, StoredName;
    RootIn(t, root);
    var t' := Grown(t, cur, node, StoredName(name));
    GrownKeeps(t, root, cur, node, StoredName(name));
    KeepsTrans(t0, t, t', root);
    ChildGrown(t, root, cur, node, StoredName(name), cur, name);
    assert done + ([name] + rest) == (done + [name]) + rest == done + [name] + rest;
    ShortPrefix(done, name);
    if Resolve(t, root, root, done) == cur {
      DeadEnd(t, root, root, done, name, rest);
      if AllShort(done + [name]) {
        ResolveGrown(t, root, cur, node, StoredName(name), root, done);
        ResolveSnoc(t', root, root, done, name);
      }
    }
  }

  class RamFs {
    var root: Node?

    /** How many more nodes there is memory for. */
    var room: nat

    /** Every node of the tree. */
    ghost var nodes: set<Node>

    ghost function Snap(): (t: Tree)
      reads this, nodes
    {
      map n | n in nodes :: Info(n.name, n.dir, n.parent, n.children, n.level)
    }

    ghost predicate Valid()
      reads this, nodes
    {
      root != null ==> Good(Snap(), root)
    }

    /** `ramfs_init`; without memory there is no root. */
    constructor (memory: nat)
      ensures Valid() && fresh(nodes) && (root == null <==> memory == 0)
      ensures root != null ==> nodes == {root} && root.children == [] && room == memory - 1
    {
      if memory > 0 {
        var r := new Node("", null, 0);
        root, nodes, room := r, {r}, memory - 1;
      } else {
        root, nodes, room := null, {}, 0;
      }
    }

    /** The inner loop of `ramfs_find_node`. */
    method LookUp(cur: Node, token: string) returns (c: Node?)
      requires Valid() && root != null && cur in nodes
      ensures c == Child(Snap(), root, cur, token)
    {
      hide Good;
      ghost var t := Snap();
      ChildrenIn(t, root, cur);
      for i := 0 to |cur.children|
        invariant FindFrom(t, cur.children, token, 0) == FindFrom(t, cur.children, token, i)
      {
        assert ChildOk(t, cur, cur.children[i]);
        if cur.children[i].name == token {
          return cur.children[i];
        }
      }
      return null;
    }

    /** Hangs a new leaf below `cur`. */
    method Hang(cur: Node, leaf: Node)
      requires Valid() && root != null && cur in nodes && |cur.children| < MAX_CHILDREN
      requires leaf !in nodes && leaf.parent == cur && leaf.children == [] && leaf.dir && |leaf.name| < MAX_NAME && leaf.level == cur.level + 1
      modifies this`nodes, cur`children
      ensures Valid() && nodes == old(nodes) + {leaf} && Snap() == Grown(old(Snap()), cur, leaf, leaf.name)
    {
      hide Good, StoredName;
      ghost var t := Snap();
      GrownGood(t, root, cur, leaf, leaf.name);
      cur.children := cur.children + [leaf];
      nodes := nodes + {leaf};
      assert Snap() == Grown(t, cur, leaf, leaf.name);
    }

    /** The part of `ramfs_find_node` that creates a missing component; null exactly without memory or in a full
        directory. Memory is taken before the directory is looked at, and lost when that is full. */
    method AddChild(cur: Node, token: string) returns (node: Node?)
      requires Valid() && root != null && cur in nodes
      modifies this`nodes, this`room, cur`children
      ensures Valid() && nodes >= old(nodes) && fresh(nodes - old(nodes))
      ensures node == null <==> old(room) == 0 || old(|cur.children|) >= 16
      ensures room == if old(room) == 0 then 0 else old(room) - 1
      ensures node == null ==> Snap() == old(Snap())
      ensures node != null ==>
        && node !in old(nodes) && nodes == old(nodes) + {node} && old(|cur.children|) < MAX_CHILDREN
        && Snap() == Grown(old(Snap()), cur, node, StoredName(token))
    {
      hide Good, StoredName, Grown;
      if room == 0 {
        return null;
      }
      ghost var t := Snap();
      room := room - 1;
      var fresh_ := new Node(StoredName(token), cur, cur.level + 1);
      assert Snap() == t;
      if |cur.children| >= MAX_CHILDREN {
        return null;
      }
      Hang(cur, fresh_);
      return fresh_;
    }

    /** One round of `ramfs_find_node`: down one component, creating it if that is asked for. */
    method Step(cur: Node, token: string, create: bool, ghost t0: Tree, ghost done: seq<string>, ghost rest: seq<string>,
                ghost all: seq<string>, ghost room0: nat) returns (next: Node?)
      requires Valid() && root != null && cur in nodes && Walking(t0, Snap(), root, cur, done, [token] + rest)
      requires Pace(t0, Snap(), root, cur, [token] + rest, all, room0, room)
      modifies this`nodes, this`room, cur`children
      ensures Valid() && nodes >= old(nodes) && fresh(nodes - old(nodes)) && Keeps(old(Snap()), Snap(), root)
      ensures !create ==> Snap() == old(Snap()) && next == Child(Snap(), root, cur, token)
      ensures next == null ==> Snap() == old(Snap()) && Child(Snap(), root, cur, token) == null
      ensures next == null && create ==> Outcome(t0, Snap(), root, all, null, room0, room)
      ensures next != null ==> next in nodes && Walking(t0, Snap(), root, next, done + [token], rest)
      ensures next != null ==> Pace(t0, Snap(), root, next, rest, all, room0, room)
    {
      hide Good, Child, Resolve, Walking, Grown, StoredName, Keeps, Pace, Outcome;
      ghost var t, left := Snap(), room;
      WalkKeeps(t0, t, root, cur, done, [token] + rest);
      KeepsRefl(t, root);
      next := LookUp(cur, token);
      if next != null {
        WalkDown(t0, t, root, cur, done, token, rest);
        PaceDown(t0, t, root, cur, token, rest, all, room0, left);
        return;
      }
      if !create {
        return null;
      }
      next := AddChild(cur, token);
      if next != null {
        WalkNew(t0, t, root, cur, next, done, token, rest);
        GrownKeeps(t, root, cur, next, StoredName(token));
        PaceNew(t0, t, root, cur, next, token, rest, all, room0, left);
      } else {
        PaceStop(t0, t, root, cur, token, rest, all, room0, left);
      }
    }

    lemma ValidParts()
      requires Valid() && root != null
      ensures Good(Snap(), root) && root in nodes && Snap().Keys == nodes
    {
    }

    /** The loop of `ramfs_find_node` over the components in the buffer. */
    method Walk(temp: array<char>, create: bool, ghost str: string) returns (r: Node?)
      requires Valid() && root != null && StrAt(temp[..], 0, str)
      modifies this`nodes, this`room, nodes, temp
      ensures Valid() && nodes >= old(nodes) && fresh(nodes - old(nodes))
      ensures !create ==> Snap() == old(Snap())
      ensures Found(old(Snap()), Snap(), root, Tokens(str), create, r)
      ensures create ==> Outcome(old(Snap()), Snap(), root, Tokens(str), r, old(room), room)
    {
      hide Good, Child, Resolve, Walking, Keeps, Tokens, StrAt, AllShort, Slashes, Plain, Behind, Found, Pace, Outcome,
        RamFs.Valid, RamFs.Snap;
      ValidParts();
      ghost var t0, all, done, rest := Snap(), Tokens(str), [], str;
      WalkStart(t0, root, all);
      PaceStart(t0, root, all, room);
      var cur, p := root, 0;
      while true
        invariant Valid() && cur in nodes && nodes >= old(nodes) && fresh(nodes - old(nodes)) && StrAt(temp[..], p, rest)
        invariant Walking(t0, Snap(), root, cur, done, Tokens(rest)) && all == done + Tokens(rest)
        invariant (!create ==> Snap() == t0) && Keeps(t0, Snap(), root)
        invariant Pace(t0, Snap(), root, cur, Tokens(rest), all, old(room), room)
        invariant !create ==> Resolve(t0, root, root, done) == cur
        decreases |Tokens(rest)|
      {
        ValidParts();
        TokensStep(rest);
        var found, start, next;
        found, start, next := NextToken(temp, p, rest);
        if !found {
          WalkEnd(t0, Snap(), root, cur, done, Tokens(rest), create);
          PaceEnd(t0, Snap(), root, cur, all, old(room), room);
          return cur;
        }
        ghost var t := rest[Slashes(rest)..];
        var token := ReadStr(temp, start, t[..Plain(t)]);
        ghost var t1, before := Snap(), cur;
        var c := Step(cur, token, create, t0, done, Tokens(Behind(t)), all, old(room));
        if c == null {
          WalkStop(t0, t1, root, before, done, token, Tokens(Behind(t)), create);
          return null;
        }
        KeepsTrans(t0, t1, Snap(), root);
        if !create { ResolveSnoc(t0, root, root, done, token); }
        assert all == (done + [token]) + Tokens(Behind(t));
        cur, p, done, rest := c, next, done + [token], Behind(t);
      }
    }

    /** `ramfs_find_node`: without creating, it is path resolution. Creating, it gives up exactly at a full
        directory or without memory for all the nodes that are missing. */
    method FindNode(path: string, create: bool) returns (r: Node?)
      requires Valid() && '\0' !in path
      modifies this`nodes, this`room, nodes
      ensures Valid() && nodes >= old(nodes) && fresh(nodes - old(nodes))
      ensures root == null ==> r == null && nodes == old(nodes)
      ensures root != null && !create ==> Snap() == old(Snap())
      ensures root != null ==> Found(old(Snap()), Snap(), root, Tokens(Cut(path)), create, r)
      ensures root != null && create ==> Outcome(old(Snap()), Snap(), root, Tokens(Cut(path)), r, old(room), room)
    {
      hide Good, Child, Resolve, Keeps, AllShort, Outcome, Pace, Found;
      if root == null {
        return null;
      }
      ghost var t := Snap();
      if path == "" || path == "/" {
        NoTokens(path);
        ghost var ts: seq<string> := [];
        assert ts + ts == ts == Tokens(Cut(path));
        WalkStart(t, root, ts);
        WalkEnd(t, t, root, root, ts, ts, create);
        PaceStart(t, root, [], room);
        PaceEnd(t, t, root, root, [], room, room);
        return root;
      }
      var temp := CopyPath(path);
      r := Walk(temp, create, Cut(path));
    }

    /** `ramfs_mkdir`: whatever the outcome, every path that resolved before resolves to the same node. On
        success the path leads to the returned directory, exactly when all its components fit into a stored
        name; and a directory that is already there is returned without any change. It fails exactly where the
        path leads to a file, where the first missing component would go into a full directory, or where there is
        not memory for all missing components. */
    method Mkdir(path: string) returns (r: Node?)
      requires Valid() && '\0' !in path
      modifies this`nodes, this`room, nodes
      ensures Valid() && nodes >= old(nodes) && fresh(nodes - old(nodes))
      ensures root == null ==> r == null
      ensures root != null ==> Keeps(old(Snap()), Snap(), root)
      ensures root != null && r != null ==>
        && r in nodes && r.dir
        && (Resolve(Snap(), root, root, Tokens(Cut(path))) == r <==> AllShort(Tokens(Cut(path))))
      ensures root != null ==> (r == null <==> !Makeable(old(Snap()), root, Tokens(Cut(path)), old(room)))
      ensures root != null && |path| < 256 ==>
        && (r == null <==> !Makeable(old(Snap()), root, Tokens(path), old(room)))
        && (r != null ==> (Resolve(Snap(), root, root, Tokens(path)) == r <==> AllShort(Tokens(path))))
      ensures root != null ==>
        var s := Halt(old(Snap()), root, root, Tokens(Cut(path)));
        && (r != null ==> |nodes| == |old(nodes)| + s.missing && room == old(room) - s.missing)
        && (s.missing == 0 ==> Snap() == old(Snap()) && room == old(room) && (r != null ==> r == s.node))
        && (r == null && s.missing > 0 ==>
              |nodes| == |old(nodes)| + if old(|Snap()[s.node].children|) >= MAX_CHILDREN then 0 else old(room))
    {
      hide Good, Child, Resolve, Keeps, AllShort, Found, Halt;
      if root == null {
        return null;
      }
      ghost var ts := Tokens(Cut(path));
      SnapSize();
      RootInSnap();
      HaltResolve(Snap(), root, root, ts);
      var node := FindNode(path, true);
      SnapSize();
      FoundMeans(old(Snap()), Snap(), root, ts, true, node);
      if node == null {
        return null;
      }
      if !node.dir {
        return null;
      }
      return node;
    }

    lemma SnapSize()
      ensures |Snap()| == |nodes|
    {
      assert Snap().Keys == nodes;
    }

    lemma RootInSnap()
      requires Valid() && root != null
      ensures root in Snap()
    {
    }
  }

  /** The outcome of a walk over `ts` that may have turned `t0` into `t`. */
  ghost predicate Found(t0: Tree, t: Tree, root: Node, ts: seq<string>, create: bool, r: Node?)
  {
    && Keeps(t0, t, root)
    && (!create ==> t == t0 && r == Resolve(t0, root, root, ts))
    && (r != null ==> r in t && (AllShort(ts) ==> Resolve(t, root, root, ts) == r))
    && (Resolve(t0, root, root, ts) != null ==> t == t0 && r == Resolve(t0, root, root, ts))
  }

  /** Where a walk along `ts` has to start creating, and how many components are missing there. */
  datatype Halted = Halted(node: Node, missing: nat)

  ghost function Halt(t: Tree, root: Node, n: Node, ts: seq<string>): (h: Halted)
    requires Good(t, root) && n in t
    ensures h.node in t && h.missing <= |ts|
    decreases |ts|
  {
    if ts == [] then Halted(n, 0) else
      var c := Child(t, root, n, ts[0]);
      if c == null then Halted(n, |ts|) else Halt(t, root, c, ts[1..])
  }

  /** A path resolves exactly when nothing is missing, and then to the node where the walk ends. */
  lemma {:induction false} HaltResolve(t: Tree, root: Node, n: Node, ts: seq<string>)
    requires Good(t, root) && n in t
    ensures Resolve(t, root, n, ts) != null <==> Halt(t, root, n, ts).missing == 0
    ensures Resolve(t, root, n, ts) != null ==> Resolve(t, root, n, ts) == Halt(t, root, n, ts).node
    decreases |ts|
  {
    hide Good;
    if ts != [] && Child(t, root, n, ts[0]) != null {
      HaltResolve(t, root, Child(t, root, n, ts[0]), ts[1..]);
    }
  }

  /** The path leads to a directory, or can be completed: there is room in the directory and in memory. */
  ghost predicate Makeable(t: Tree, root: Node, ts: seq<string>, room: nat)
    requires Good(t, root)
  {
    var h := Halt(t, root, root, ts);
    if h.missing == 0 then t[h.node].dir else |t[h.node].children| < MAX_CHILDREN && h.missing <= room
  }

  /** How a walk that may create ends: exactly when it fails, and what it took. */
  ghost predicate Outcome(t0: Tree, t: Tree, root: Node, ts: seq<string>, r: Node?, room0: nat, room: nat)
  {
    && Good(t0, root)
    && var h := Halt(t0, root, root, ts);
       && (r == null <==> h.missing > 0 && (|t0[h.node].children| >= MAX_CHILDREN || room0 < h.missing))
       && (r == null ==> |t| == |t0| + if |t0[h.node].children| >= MAX_CHILDREN then 0 else room0)
       && (r == null ==> room == if |t0[h.node].children| >= MAX_CHILDREN && room0 > 0 then room0 - 1 else 0)
       && (r != null ==> room + h.missing == room0 && |t| == |t0| + h.missing && r in t && (h.missing > 0 ==> t[r].dir))
  }

  /** The walk has come to `cur` with `rest` to go: in the tree it found, or in a new and empty directory. */
  ghost predicate Pace(t0: Tree, t: Tree, root: Node, cur: Node, rest: seq<string>, all: seq<string>, room0: nat, room: nat)
  {
    && Good(t0, root) && cur in t && room <= room0 && |t| == |t0| + (room0 - room)
    && var h := Halt(t0, root, root, all);
       if room == room0 then t == t0 && Halt(t0, root, cur, rest) == h
       else
         && h.missing == (room0 - room) + |rest| && t[cur].children == [] && t[cur].dir
         && |t0[h.node].children| < MAX_CHILDREN
  }

  lemma PaceStart(t: Tree, root: Node, all: seq<string>, room: nat)
    requires Good(t, root)
    ensures root in t && Pace(t, t, root, root, all, all, room, room)
  {
  }

  lemma NoChild(t: Tree, root: Node, n: Node, name: string)
    requires Good(t, root) && n in t && t[n].children == []
    ensures Child(t, root, n, name) == null
  {
  }

  lemma PaceDown(t0: Tree, t: Tree, root: Node, cur: Node, name: string, rest: seq<string>, all: seq<string>, room0: nat, room: nat)
    requires Pace(t0, t, root, cur, [name] + rest, all, room0, room) && Good(t, root) && Child(t, root, cur, name) != null
    ensures Pace(t0, t, root, Child(t, root, cur, name), rest, all, room0, room)
  {
    hide Good, Child;
    if room < room0 {
      NoChild(t, root, cur, name);
      assert false;
    }
    HaltDown(t, root, cur, name, rest);
  }

  lemma HaltDown(t: Tree, root: Node, cur: Node, name: string, rest: seq<string>)
    requires Good(t, root) && cur in t
    ensures Halt(t, root, cur, [name] + rest) ==
      var c := Child(t, root, cur, name); if c == null then Halted(cur, |rest| + 1) else Halt(t, root, c, rest)
  {
    hide Good, Child;
    var ts := [name] + rest;
    assert ts[0] == name && ts[1..] == rest;
  }

  lemma PaceNew(t0: Tree, t: Tree, root: Node, cur: Node, node: Node, name: string, rest: seq<string>, all: seq<string>,
                room0: nat, room: nat)
    requires Pace(t0, t, root, cur, [name] + rest, all, room0, room) && Good(t, root) && Child(t, root, cur, name) == null
    requires room > 0 && node !in t && |t[cur].children| < MAX_CHILDREN
    ensures Pace(t0, Grown(t, cur, node, StoredName(name)), root, node, rest, all, room0, room - 1)
  {
    hide Good, Child, StoredName, Halt;
    HaltDown(t, root, cur, name, rest);
    GrownSize(t, cur, node, StoredName(name));
  }

  lemma PaceStop(t0: Tree, t: Tree, root: Node, cur: Node, name: string, rest: seq<string>, all: seq<string>,
                 room0: nat, room: nat)
    requires Pace(t0, t, root, cur, [name] + rest, all, room0, room) && Good(t, root) && Child(t, root, cur, name) == null
    requires room == 0 || |t[cur].children| >= MAX_CHILDREN
    ensures Outcome(t0, t, root, all, null, room0, if room == 0 then 0 else room - 1)
  {
    hide Good, Child, Halt;
    HaltDown(t, root, cur, name, rest);
  }

  lemma PaceEnd(t0: Tree, t: Tree, root: Node, cur: Node, all: seq<string>, room0: nat, room: nat)
    requires Pace(t0, t, root, cur, [], all, room0, room)
    ensures Outcome(t0, t, root, all, cur, room0, room)
  {
    hide Good, Child;
  }

  /** What the outcome means: a path resolves to the node found exactly when its components fit. */
  lemma FoundMeans(t0: Tree, t: Tree, root: Node, ts: seq<string>, create: bool, r: Node?)
    requires Found(t0, t, root, ts, create, r)
    ensures Keeps(t0, t, root) && Good(t, root) && root in t && root in t0 && Good(t0, root)
    ensures r != null ==> r in t && (Resolve(t, root, root, ts) == r <==> AllShort(ts))
    ensures Resolve(t0, root, root, ts) != null ==> t == t0 && r == Resolve(t0, root, root, ts)
  {
    if !AllShort(ts) { TooLong(t, root, root, ts); }
  }

  lemma WalkStart(t: Tree, root: Node, all: seq<string>)
    requires Good(t, root)
    ensures root in t && Walking(t, t, root, root, [], all) && Keeps(t, t, root) && Resolve(t, root, root, []) == root
  {
  }

  lemma WalkEnd(t0: Tree, t: Tree, root: Node, cur: Node, done: seq<string>, rest: seq<string>, create: bool)
    requires Walking(t0, t, root, cur, done, rest) && rest == []
    requires Good(t0, root) && root in t0 && (!create ==> t == t0 && Resolve(t0, root, root, done) == cur)
    ensures Found(t0, t, root, done + rest, create, cur)
  {
    hide Good, Resolve;
    assert done + rest == done;
  }

  lemma WalkStop(t0: Tree, t: Tree, root: Node, cur: Node, done: seq<string>, name: string, rest: seq<string>, create: bool)
    requires Walking(t0, t, root, cur, done, [name] + rest) && Good(t, root) && Child(t, root, cur, name) == null
    requires Good(t0, root) && root in t0 && (!create ==> t == t0 && Resolve(t0, root, root, done) == cur)
    ensures Found(t0, t, root, done + ([name] + rest), create, null)
  {
    hide Good, Resolve, Child;
    assert done + ([name] + rest) == done + [name] + rest;
    if t == t0 && Resolve(t0, root, root, done) == cur { DeadEnd(t, root, root, done, name, rest); }
  }

  lemma NoTokens(path: string)
    requires path == "" || path == "/"
    ensures Tokens(Cut(path)) == []
  {
    if path == "/" { assert path[1..] == "" && Slashes(path) == 1; }
  }

  /** The bounded copy of the path at the start of `ramfs_find_node`. */
  method CopyPath(path: string) returns (temp: array<char>)
    requires '\0' !in path
    ensures fresh(temp) && StrAt(temp[..], 0, Cut(path))
  {
    temp := new char[MAX_PATH](i => '\0');
    var i: nat := 0;
    while i < MAX_PATH - 1 && i < |path|
      invariant i <= |Cut(path)| && forall k :: 0 <= k < i ==> temp[k] == path[k]
      invariant forall k :: i <= k < MAX_PATH ==> temp[k] == '\0'
    {
      temp[i] := path[i];
      i := i + 1;
    }
  }

  /** The string at `start` of the buffer. */
  method ReadStr(buf: array<char>, start: nat, ghost str: string) returns (s: string)
    requires StrAt(buf[..], start, str)
    ensures s == str
  {
    s := [];
    var i: nat := 0;
    while buf[start + i] != '\0'
      invariant i <= |str| && s == str[..i] && (i < |str| ==> buf[start + i] == str[i] != '\0')
      decreases |str| - i
    {
      s := s + [buf[start + i]];
      i := i + 1;
      assert i < |str| ==> str[i] != '\0';
    }
  }

  lemma WalkKeeps(t0: Tree, t: Tree, root: Node, cur: Node, done: seq<string>, rest: seq<string>)
    requires Walking(t0, t, root, cur, done, rest)
    ensures Keeps(t0, t, root) && Good(t, root) && cur in t
  {
  }
}
