/** The `Homework` exercise of task01.py: two queries answered from a trie,
    counting stored words by suffix and asking whether a prefix is present. */
module Homework {
  import opened Strings
  import opened Tries

  /** The stored keys that end with `pattern`. */
  ghost function EndingWith(keys: set<string>, pattern: string): set<string> {
    set k | k in keys && EndsWith(k, pattern)
  }

  /** `Homework.count_words_with_suffix(pattern)`: walks the list `keys()`
      returns and counts the words that end with `pattern`. Since that list
      holds each stored key once, the count is the number of stored keys ending
      with `pattern`; for the empty pattern it is `size`. */
  method CountWordsWithSuffix<V>(t: Trie<V>, pattern: string) returns (n: nat)
    ensures n == |EndingWith(Keys(t.root), pattern)|
    ensures pattern == [] && Valid(t) ==> n == t.size
  {
    var words := KeysOf(t);
    n := 0;
    var i := 0;
    while i < |words|
      invariant 0 <= i <= |words|
      invariant n == |EndingWith(Elements(words[..i]), pattern)|
    {
      CountStep(words, i, pattern);
      if EndsWith(words[i], pattern) {
        n := n + 1;
      }
      i := i + 1;
    }
    assert words[..|words|] == words;
    SameElements(words, Keys(t.root));
    if pattern == [] {
      EndingWithEmpty(Keys(t.root));
    }
  }

  /** A list and a set with the same members: the set is the list's elements. */
  lemma SameElements(ws: seq<string>, keys: set<string>)
    requires forall s :: s in ws <==> s in keys
    ensures Elements(ws) == keys
  {
  }

  /** Every key ends with the empty pattern. */
  lemma EndingWithEmpty(keys: set<string>)
    ensures EndingWith(keys, []) == keys
  {
    forall k | k in keys
      ensures EndsWith(k, [])
    {
      assert k[|k|..] == [];
    }
  }

  /** Scanning one more word of a list without repeats adds one to the count
      exactly when the word ends with `pattern`. */
  lemma CountStep(ws: seq<string>, i: nat, pattern: string)
    requires i < |ws| && Distinct(ws)
    ensures |EndingWith(Elements(ws[..i + 1]), pattern)|
            == |EndingWith(Elements(ws[..i]), pattern)| + if EndsWith(ws[i], pattern) then 1 else 0
  {
    var before := EndingWith(Elements(ws[..i]), pattern);
    assert ws[..i + 1] == ws[..i] + [ws[i]];
    assert Elements(ws[..i + 1]) == Elements(ws[..i]) + {ws[i]};
    assert ws[i] !in Elements(ws[..i]);
    if EndsWith(ws[i], pattern) {
      assert EndingWith(Elements(ws[..i + 1]), pattern) == before + {ws[i]};
    } else {
      assert EndingWith(Elements(ws[..i + 1]), pattern) == before;
    }
  }

  /** `Homework.has_prefix(prefix)`: delegates to `has_node`. On a trie built
      by `put`, the answer is whether the prefix is empty or extended by some
      stored key. */
  function HasPrefix<V>(t: Trie<V>, prefix: string): (b: bool)
    ensures b == HasNode(t.root, prefix)
    ensures Valid(t) ==> (b <==> prefix == [] || exists k :: k in Keys(t.root) && StartsWith(k, prefix))
  {
    HasNode(t.root, prefix)
  }

  /** The demonstration's words, in the order they are put. */
  function DemoList(): seq<string> {
    ["apple", "application", "banana", "cat"]
  }

  /** The demonstration's words as a set. */
  ghost function DemoWords(): set<string> {
    Elements(DemoList())
  }

  /** The demonstration words are non-empty, as `put` requires. */
  lemma DemoListFacts(words: seq<string>)
    requires words == DemoList()
    ensures forall j :: 0 <= j < |words| ==> words[j] != []
  {
  }

  /** The demonstration's words, spelled out as a set. */
  lemma DemoWordsAre()
    ensures DemoWords() == {"apple", "application", "banana", "cat"}
  {
    var ws := DemoList();
    assert ws[0] == "apple" && ws[1] == "application" && ws[2] == "banana" && ws[3] == "cat";
  }

  /** The demonstration's loop: put each word with its index as value, in
      order, into a fresh trie. The trie then stores exactly the words. */
  method PutEnumerated(words: seq<string>) returns (t: Trie<int>)
    requires forall j :: 0 <= j < |words| ==> words[j] != []
    ensures Valid(t) && Keys(t.root) == Elements(words)
  {
    t := Empty();
    var i := 0;
    while i < |words|
      invariant 0 <= i <= |words|
      invariant Valid(t)
      invariant Keys(t.root) == Elements(words[..i])
    {
      ElementsSnoc(words, i);
      t := Put(t, words[i], Some(i)).value;
      i := i + 1;
    }
    assert words[..i] == words;
  }

  /** The elements of one more entry of a list. */
  lemma ElementsSnoc(ws: seq<string>, i: nat)
    requires i < |ws|
    ensures Elements(ws[..i + 1]) == Elements(ws[..i]) + {ws[i]}
  {
    assert ws[..i + 1] == ws[..i] + [ws[i]];
  }

  /** When exactly the first of four words ends with `p`, one of them does. */
  lemma EndingWithFirst(a: string, b: string, c: string, d: string, p: string)
    requires EndsWith(a, p) && !EndsWith(b, p) && !EndsWith(c, p) && !EndsWith(d, p)
    ensures EndingWith({a, b, c, d}, p) == {a}
  {
  }

  /** Each demonstration suffix is the ending of exactly one of the words. */
  lemma DemoSuffixes()
    ensures EndingWith(DemoWords(), "e") == {"apple"}
    ensures EndingWith(DemoWords(), "ion") == {"application"}
    ensures EndingWith(DemoWords(), "a") == {"banana"}
    ensures EndingWith(DemoWords(), "at") == {"cat"}
  {
    DemoWordsAre();
    EndingWithFirst("apple", "application", "banana", "cat", "e");
    EndingWithFirst("application", "apple", "banana", "cat", "ion");
    EndingWithFirst("banana", "apple", "application", "cat", "a");
    EndingWithFirst("cat", "apple", "application", "banana", "at");
  }

  /** "app", "ban" and "ca" begin some demonstration word; "bat" begins none. */
  lemma DemoPrefixes()
    ensures exists k :: k in DemoWords() && StartsWith(k, "app")
    ensures !exists k :: k in DemoWords() && StartsWith(k, "bat")
    ensures exists k :: k in DemoWords() && StartsWith(k, "ban")
    ensures exists k :: k in DemoWords() && StartsWith(k, "ca")
  {
    DemoWordsAre();
    assert StartsWith("apple", "app");
    assert StartsWith("banana", "ban");
    assert StartsWith("cat", "ca");
    assert !StartsWith("apple", "bat") && !StartsWith("application", "bat");
    assert !StartsWith("banana", "bat");
    assert "cat"[..3][0] != "bat"[0];
  }

  /** The demonstration of task01.py as a method: build the trie from the four
      words, then ask the four suffix counts and the four prefix questions. */
  method Demo() returns (e: nat, ion: nat, a: nat, at: nat, app: bool, bat: bool, ban: bool, ca: bool)
    ensures e == 1 && ion == 1 && a == 1 && at == 1
    ensures app && !bat && ban && ca
  {
    var words := DemoList();
    DemoListFacts(words);
    var t := PutEnumerated(words);
    DemoSuffixes();
    DemoPrefixes();

    e := CountWordsWithSuffix(t, "e");
    ion := CountWordsWithSuffix(t, "ion");
    a := CountWordsWithSuffix(t, "a");
    at := CountWordsWithSuffix(t, "at");

    app := HasPrefix(t, "app");
    bat := HasPrefix(t, "bat");
    ban := HasPrefix(t, "ban");
    ca := HasPrefix(t, "ca");
  }
}
