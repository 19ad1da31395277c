/** A character trie (`TrieNode` and `Trie` in task01.py, repeated verbatim in
    task02.py). Each node maps a character to a child node and carries an
    optional payload; a key is stored when the node its characters lead to has a
    payload. The trie is an immutable value here: `Put` returns the new trie and
    the queries take the trie as an argument, so no query can change it.

    The ghost abstraction is `Keys(root)`, the set of stored keys, together with
    `Lookup`, which reads the payload stored under one key. */
module Tries {
  import opened Strings

  /** What a marked node holds: the `True` marker that `put` stores when it is
      given no value, or the value it was given. Absence is `None` of the
      surrounding `Option`, never a falsy payload. */
  datatype Payload<V> = Marker | Given(v: V)

  datatype Option<T> = None | Some(value: T)

  /** One position in the key space. Child labels are unique because they are
      the keys of a map. */
  datatype Node<V> = Node(children: map<char, Node<V>>, value: Option<Payload<V>>)

  /** The root node and the number of stored keys. */
  datatype Trie<V> = Trie(root: Node<V>, size: nat)

  /** The one way `put` can fail: an empty key (a `TypeError` in the source). */
  datatype Error = EmptyKey

  datatype Result<T> = Ok(value: T) | Err(error: Error)

  /** A fresh node: no children, no payload. */
  function Leaf<V>(): Node<V> {
    Node(map[], None)
  }

  /** A fresh trie (`Trie.__init__`). */
  function Empty<V>(): (t: Trie<V>)
    ensures Keys(t.root) == {} && t.size == 0
    ensures Valid(t)
  {
    Trie(Leaf(), 0)
  }

  /** The payload `put(key, value)` stores: the value, or the marker when the
      value is omitted (`None`). */
  function Stamp<V>(value: Option<V>): (p: Payload<V>)
    ensures value.None? <==> p == Marker
  {
    match value
    case None => Marker
    case Some(v) => Given(v)
  }

  // ---------------------------------------------------------------------------
  // Abstraction: the stored keys and their payloads
  // ---------------------------------------------------------------------------

  /** The payload stored under `key`, following the path one character at a
      time; `None` when the path is missing or ends at an unmarked node. */
  function Lookup<V>(n: Node<V>, key: string): Option<Payload<V>>
    decreases |key|
  {
    if key == [] then n.value
    else if key[0] in n.children then Lookup(n.children[key[0]], key[1..])
    else None
  }

  /** The set of keys stored below `n`: the empty key when `n` is marked, and
      every child label followed by a key stored below that child. */
  ghost function Keys<V>(n: Node<V>): set<string>
    decreases n
  {
    (if n.value.Some? then {[]} else {})
    + (set c, k | c in n.children && k in Keys(n.children[c]) :: [c] + k)
  }

  /** No dead branches: every child has at least one stored key below it. Tries
      built by `put` alone have this shape. */
  ghost predicate Live<V>(n: Node<V>)
    decreases n
  {
    forall c :: c in n.children ==> Keys(n.children[c]) != {} && Live(n.children[c])
  }

  /** The trie invariant: no dead branches, and `size` counts the stored keys
      (one per marked node). */
  ghost predicate Valid<V>(t: Trie<V>) {
    Live(t.root) && t.size == |Keys(t.root)|
  }

  /** One step of `Keys`: membership of a key is decided by its first character
      and the child that character leads to. */
  lemma KeysUnfold<V>(n: Node<V>, s: string)
    ensures s in Keys(n) <==>
              if s == [] then n.value.Some?
              else s[0] in n.children && s[1..] in Keys(n.children[s[0]])
  {
    if s != [] && s[0] in n.children && s[1..] in Keys(n.children[s[0]]) {
      assert s == [s[0]] + s[1..];
    }
    if s in Keys(n) && s != [] {
      var c, k :| c in n.children && k in Keys(n.children[c]) && s == [c] + k;
      assert s[0] == c && s[1..] == k;
    }
  }

  /** The two abstractions agree: a key is in `Keys` exactly when `Lookup`
      finds a payload for it. */
  lemma {:induction false} KeysLookup<V>(n: Node<V>, s: string)
    ensures s in Keys(n) <==> Lookup(n, s).Some?
    decreases |s|
  {
    KeysUnfold(n, s);
    if s != [] && s[0] in n.children {
      KeysLookup(n.children[s[0]], s[1..]);
    }
  }

  // ---------------------------------------------------------------------------
  // put
  // ---------------------------------------------------------------------------

  /** The walk of `put`: follow `key` from `n`, creating each missing child,
      and store `p` at the node reached. The flag reports whether that node was
      unmarked before, which is when `put` increments `size`. */
  function Insert<V>(n: Node<V>, key: string, p: Payload<V>): (r: (Node<V>, bool))
    ensures r.1 <==> Lookup(n, key).None?
    decreases |key|
  {
    if key == [] then (n.(value := Some(p)), n.value.None?)
    else
      var c := key[0];
      var child := if c in n.children then n.children[c] else Leaf();
      var (child', added) := Insert(child, key[1..], p);
      (n.(children := n.children[c := child']), added)
  }

  /** After the walk, `key` holds `p` and every other key keeps its payload. */
  lemma {:induction false} InsertLookup<V>(n: Node<V>, key: string, p: Payload<V>, k: string)
    ensures Lookup(Insert(n, key, p).0, k) == if k == key then Some(p) else Lookup(n, k)
    decreases |key|
  {
    var n' := Insert(n, key, p).0;
    if key != [] && k != [] {
      var c := key[0];
      var child := if c in n.children then n.children[c] else Leaf();
      if k[0] == c {
        InsertLookup(child, key[1..], p, k[1..]);
        assert k == key <==> k[1..] == key[1..] by {
          if k[1..] == key[1..] {
            assert k == [c] + k[1..] && key == [c] + key[1..];
          }
        }
      }
    }
  }

  /** `InsertLookup` for every key at once. */
  lemma InsertLookupAll<V>(n: Node<V>, key: string, p: Payload<V>)
    ensures forall k :: Lookup(Insert(n, key, p).0, k) == if k == key then Some(p) else Lookup(n, k)
  {
    forall k
      ensures Lookup(Insert(n, key, p).0, k) == if k == key then Some(p) else Lookup(n, k)
    {
      InsertLookup(n, key, p, k);
    }
  }

  /** The walk adds exactly `key` to the stored keys. */
  lemma InsertKeys<V>(n: Node<V>, key: string, p: Payload<V>)
    ensures Keys(Insert(n, key, p).0) == Keys(n) + {key}
  {
    var n' := Insert(n, key, p).0;
    forall s
      ensures s in Keys(n') <==> s in Keys(n) || s == key
    {
      KeysLookup(n', s);
      KeysLookup(n, s);
      InsertLookup(n, key, p, s);
    }
  }

  /** The walk adds one key to the count exactly when it reports a new key. */
  lemma InsertCount<V>(n: Node<V>, key: string, p: Payload<V>)
    ensures Keys(Insert(n, key, p).0) == Keys(n) + {key}
    ensures Insert(n, key, p).1 <==> key !in Keys(n)
    ensures |Keys(Insert(n, key, p).0)| == |Keys(n)| + if Insert(n, key, p).1 then 1 else 0
  {
    InsertKeys(n, key, p);
    KeysLookup(n, key);
    AddOneCard(Keys(n), key);
  }

  /** Adding an element grows a set by one exactly when it was absent. */
  lemma AddOneCard(s: set<string>, x: string)
    ensures |s + {x}| == if x in s then |s| else |s| + 1
  {
    if x in s {
      assert s + {x} == s;
    } else {
      assert s * {x} == {};
    }
  }

  /** The walk creates no dead branch: every node it adds lies on the path to
      the node it marks. */
  lemma {:induction false} InsertLive<V>(n: Node<V>, key: string, p: Payload<V>)
    ensures Live(n) ==> Live(Insert(n, key, p).0)
    decreases |key|
  {
    if key != [] && Live(n) {
      var c := key[0];
      var child := if c in n.children then n.children[c] else Leaf();
      var child' := Insert(child, key[1..], p).0;
      InsertLive(child, key[1..], p);
      InsertKeys(child, key[1..], p);
      assert key[1..] in Keys(child');
      LiveUpdate(n, c, child');
    }
  }

  /** Replacing one child of a node without dead branches by a child with
      stored keys and no dead branches leaves no dead branch. */
  lemma LiveUpdate<V>(n: Node<V>, c: char, child: Node<V>)
    requires Live(n) && Keys(child) != {} && Live(child)
    ensures Live(n.(children := n.children[c := child]))
  {
    var n' := n.(children := n.children[c := child]);
    forall d | d in n'.children
      ensures Keys(n'.children[d]) != {} && Live(n'.children[d])
    {
      if d != c {
        assert n'.children[d] == n.children[d];
      }
    }
  }

  /** `Trie.put(key, value)`. An empty key is rejected and nothing is stored.
      Otherwise `key` afterwards holds the given value (or the marker), every
      other key is untouched, `size` grows by one exactly when `key` was not
      stored before, and the trie invariant is kept. */
  function Put<V>(t: Trie<V>, key: string, value: Option<V>): (r: Result<Trie<V>>)
    ensures key == [] <==> r.Err?
    ensures r.Ok? ==> Lookup(r.value.root, key) == Some(Stamp(value))
    ensures r.Ok? ==> forall k :: k != key ==> Lookup(r.value.root, k) == Lookup(t.root, k)
    ensures r.Ok? ==> Keys(r.value.root) == Keys(t.root) + {key}
    ensures r.Ok? ==> r.value.size == if key in Keys(t.root) then t.size else t.size + 1
    ensures r.Ok? && Valid(t) ==> Valid(r.value)
  {
    if key == [] then Err(EmptyKey)
    else
      var (root', added) := Insert(t.root, key, Stamp(value));
      InsertLookupAll(t.root, key, Stamp(value));
      InsertCount(t.root, key, Stamp(value));
      InsertLive(t.root, key, Stamp(value));
      Ok(Trie(root', if added then t.size + 1 else t.size))
  }

  /** Putting the same key twice: the second value wins and `size` counts the
      key once. */
  lemma PutTwice<V>(t: Trie<V>, key: string, v1: Option<V>, v2: Option<V>)
    requires key != []
    ensures var t1 := Put(t, key, v1).value;
            var t2 := Put(t1, key, v2).value;
            && Lookup(t2.root, key) == Some(Stamp(v2))
            && t2.size == t1.size
            && Keys(t2.root) == Keys(t1.root)
  {
  }

  /** The result of putting a sequence of (key, value) pairs in order; the
      first empty key stops the sequence with an error, as the source's
      exception would. */
  function PutAll<V>(t: Trie<V>, entries: seq<(string, Option<V>)>): Result<Trie<V>>
    decreases |entries|
  {
    if entries == [] then Ok(t)
    else
      match Put(t, entries[0].0, entries[0].1)
      case Err(e) => Err(e)
      case Ok(t') => PutAll(t', entries[1..])
  }

  /** The keys of a sequence of (key, value) pairs. */
  ghost function KeySet<V>(entries: seq<(string, Option<V>)>): set<string>
    decreases |entries|
  {
    if entries == [] then {}
    else {entries[0].0} + KeySet(entries[1..])
  }

  /** After putting non-empty keys, the trie stores exactly the keys it held
      before plus the keys put, and the invariant still holds. */
  lemma {:induction false} PutAllKeys<V>(t: Trie<V>, entries: seq<(string, Option<V>)>)
    requires forall i :: 0 <= i < |entries| ==> entries[i].0 != []
    ensures PutAll(t, entries).Ok?
    ensures Keys(PutAll(t, entries).value.root) == Keys(t.root) + KeySet(entries)
    ensures Valid(t) ==> Valid(PutAll(t, entries).value)
    decreases |entries|
  {
    if entries != [] {
      var r := Put(t, entries[0].0, entries[0].1);
      assert r.Ok?;
      var t' := r.value;
      assert Keys(t'.root) == Keys(t.root) + {entries[0].0};
      assert PutAll(t, entries) == PutAll(t', entries[1..]);
      PutAllKeys(t', entries[1..]);
    }
  }

  // ---------------------------------------------------------------------------
  // has_node
  // ---------------------------------------------------------------------------

  /** `Trie.has_node(prefix)`: the path spelled by `prefix` exists, whether or
      not it ends at a marked node. Stops at the first missing child. The
      empty path always exists; in a trie without dead branches a path exists
      exactly when some stored key extends it. */
  function HasNode<V>(n: Node<V>, prefix: string): (b: bool)
    ensures prefix == [] ==> b
    ensures Live(n) ==> (b <==> prefix == [] || exists k :: k in Keys(n) && StartsWith(k, prefix))
    decreases |prefix|
  {
    if prefix == [] then true
    else
      var c := prefix[0];
      var rest := prefix[1..];
      assert prefix == [c] + rest;
      ExtendsThroughChild(n, c, rest);
      if c in n.children then
        SomeKeyExtendsEmpty(Keys(n.children[c]));
        HasNode(n.children[c], rest)
      else false
  }

  /** A key stored below `n` extends `[c] + rest` exactly when `c` leads to a
      child below which some stored key extends `rest`. */
  lemma ExtendsThroughChild<V>(n: Node<V>, c: char, rest: string)
    ensures (exists k :: k in Keys(n) && StartsWith(k, [c] + rest))
            <==> c in n.children && exists k :: k in Keys(n.children[c]) && StartsWith(k, rest)
  {
    if exists k :: k in Keys(n) && StartsWith(k, [c] + rest) {
      var k :| k in Keys(n) && StartsWith(k, [c] + rest);
      KeysUnfold(n, k);
      assert k[0] == ([c] + rest)[0] == c;
      assert k[1..][..|rest|] == k[..|rest| + 1][1..];
      assert StartsWith(k[1..], rest);
    }
    if c in n.children && exists k :: k in Keys(n.children[c]) && StartsWith(k, rest) {
      var k :| k in Keys(n.children[c]) && StartsWith(k, rest);
      KeysCons(n, c, k);
      ConsStartsWith(c, k, rest);
    }
  }

  /** Every string starts with the empty string, so a non-empty set has a
      member extending it. */
  lemma SomeKeyExtendsEmpty(s: set<string>)
    ensures s != {} ==> exists k :: k in s && StartsWith(k, [])
  {
    if s != {} {
      var k :| k in s;
      assert StartsWith(k, []);
    }
  }

  /** Every prefix of a stored key leads to a node. */
  lemma {:induction false} StoredPrefixHasNode<V>(n: Node<V>, k: string, prefix: string)
    requires k in Keys(n) && StartsWith(k, prefix)
    ensures HasNode(n, prefix)
    decreases |prefix|
  {
    if prefix != [] {
      KeysUnfold(n, k);
      StoredPrefixHasNode(n.children[k[0]], k[1..], prefix[1..]);
    }
  }

  /** A child label followed by a key stored below that child is stored. */
  lemma KeysCons<V>(n: Node<V>, c: char, rest: string)
    requires c in n.children && rest in Keys(n.children[c])
    ensures [c] + rest in Keys(n)
  {
  }

  /** Putting the same character in front keeps a prefix a prefix. */
  lemma ConsStartsWith(c: char, w: string, p: string)
    requires StartsWith(w, p)
    ensures StartsWith([c] + w, [c] + p)
  {
    assert ([c] + w)[..|p| + 1] == [c] + w[..|p|];
  }


  /** After a successful `put`, every prefix of the key, the empty one and the
      key itself included, has a node. */
  lemma PutHasNodePrefixes<V>(t: Trie<V>, key: string, value: Option<V>, prefix: string)
    requires key != [] && StartsWith(key, prefix)
    ensures HasNode(Put(t, key, value).value.root, prefix)
  {
    StoredPrefixHasNode(Put(t, key, value).value.root, key, prefix);
  }

  // ---------------------------------------------------------------------------
  // keys
  // ---------------------------------------------------------------------------

  /** No string occurs twice. */
  predicate Distinct(ss: seq<string>) {
    forall i, j :: 0 <= i < j < |ss| ==> ss[i] != ss[j]
  }

  /** `s` is `prefix` followed by a key stored below `n`. */
  ghost predicate Below<V>(prefix: string, n: Node<V>, s: string) {
    StartsWith(s, prefix) && s[|prefix|..] in Keys(n)
  }

  /** One step of `Below`: the node itself, or one of its children. */
  lemma BelowUnfold<V>(prefix: string, n: Node<V>, s: string)
    ensures Below(prefix, n, s) <==>
              (s == prefix && n.value.Some?)
              || exists c :: c in n.children && Below(prefix + [c], n.children[c], s)
  {
    if Below(prefix, n, s) {
      BelowCases(prefix, n, s);
    }
    if s == prefix && n.value.Some? {
      KeysUnfold(n, s[|prefix|..]);
    }
    if exists c :: c in n.children && Below(prefix + [c], n.children[c], s) {
      var c :| c in n.children && Below(prefix + [c], n.children[c], s);
      BelowOfChild(prefix, n, c, s);
    }
  }

  /** A string below a node is the node's own key or lies below a child. */
  lemma BelowCases<V>(prefix: string, n: Node<V>, s: string)
    requires Below(prefix, n, s)
    ensures (s == prefix && n.value.Some?)
            || exists c :: c in n.children && Below(prefix + [c], n.children[c], s)
  {
    var r := s[|prefix|..];
    KeysUnfold(n, r);
    if r != [] {
      var c := r[0];
      assert s[|prefix| + 1..] == r[1..];
      assert s[..|prefix| + 1] == prefix + [c];
      assert Below(prefix + [c], n.children[c], s);
    } else {
      assert s == s[..|prefix|];
    }
  }

  /** A string below a child is below its parent. */
  lemma BelowOfChild<V>(prefix: string, n: Node<V>, c: char, s: string)
    requires c in n.children && Below(prefix + [c], n.children[c], s)
    ensures Below(prefix, n, s)
  {
    var r := s[|prefix|..];
    assert r[0] == c && r[1..] == s[|prefix| + 1..];
    assert s[..|prefix|] == (prefix + [c])[..|prefix|];
    KeysUnfold(n, r);
  }


  /** The recursive `collect(node, prefix)` of `Trie.keys`: the node's own key
      first when it is marked, then every child's keys, depth first. The order
      in which children are visited is left open. */
  method Collect<V>(n: Node<V>, prefix: string) returns (out: seq<string>)
    ensures forall s :: s in out <==> Below(prefix, n, s)
    ensures Distinct(out)
    decreases n
  {
    out := if n.value.Some? then [prefix] else [];
    var todo := n.children.Keys;
    ghost var done: set<char> := {};
    while todo != {}
      invariant todo + done == n.children.Keys && todo !! done
      invariant Distinct(out)
      invariant forall s :: s in out <==>
                  (s == prefix && n.value.Some?)
                  || exists c :: c in done && Below(prefix + [c], n.children[c], s)
      decreases todo
    {
      var c :| c in todo;
      var sub := Collect(n.children[c], prefix + [c]);
      forall i, j | 0 <= i < |out| && 0 <= j < |sub|
        ensures out[i] != sub[j]
      {
        assert sub[j] in sub;
        assert Below(prefix + [c], n.children[c], sub[j]);
        assert sub[j][|prefix|] == (prefix + [c])[|prefix|] == c;
        assert out[i] in out;
        if out[i] != prefix {
          var d :| d in done && Below(prefix + [d], n.children[d], out[i]);
          assert out[i][|prefix|] == (prefix + [d])[|prefix|] == d;
        }
      }
      out := out + sub;
      todo := todo - {c};
      done := done + {c};
    }
    forall s
      ensures s in out <==> Below(prefix, n, s)
    {
      BelowUnfold(prefix, n, s);
    }
  }

  /** The elements of a sequence, as a set. */
  ghost function Elements(ss: seq<string>): set<string> {
    set s | s in ss
  }

  /** A sequence without repeats has as many elements as its set. */
  lemma {:induction false} DistinctCard(ss: seq<string>)
    requires Distinct(ss)
    ensures |Elements(ss)| == |ss|
    decreases |ss|
  {
    if ss != [] {
      var init := ss[..|ss| - 1];
      var last := ss[|ss| - 1];
      assert Distinct(init);
      DistinctCard(init);
      assert Elements(ss) == Elements(init) + {last} by {
        assert ss == init + [last];
      }
      assert last !in Elements(init);
    }
  }

  /** `Trie.keys()`: every stored key exactly once, in some order; on a valid
      trie there are `size` of them. */
  method KeysOf<V>(t: Trie<V>) returns (ks: seq<string>)
    ensures forall s :: s in ks <==> s in Keys(t.root)
    ensures Distinct(ks)
    ensures Valid(t) ==> |ks| == t.size
  {
    ks := Collect(t.root, []);
    forall s
      ensures s in ks <==> s in Keys(t.root)
    {
      assert s[0..] == s;
    }
    assert Elements(ks) == Keys(t.root);
    DistinctCard(ks);
  }
}
