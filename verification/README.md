# Character trie and longest common prefix, in Dafny

This project models two small string components of a Python homework repository:

- a **character trie** (`TrieNode`, `Trie` in `task01.py`). Nodes map characters to children and carry an optional payload. `put` inserts a key, `has_node` tests whether a path exists, and `keys` lists the stored keys. Two queries are built on top (`Homework`): counting stored words by suffix, and testing a prefix;
- **`find_longest_common_word`** (`LongestCommonWord` in `task02.py`), which shrinks the first string from the end until every later string starts with it.

`task02.py` repeats the trie of `task01.py` (its lines 1-40) line for line. It is modelled once, in `trie.dfy`, and every property stated there holds of both copies.

Files:

- `strings.dfy` (module `Strings`): Python's `startswith` and `endswith`.
- `trie.dfy` (module `Tries`): the node and trie datatypes, `put`, `has_node` and `keys`. Two ghost abstractions state what these mean. `Keys(root)` is the set of stored keys. `Lookup(root, k)` is the payload stored under `k`.
- `homework.dfy` (module `Homework`): `count_words_with_suffix`, `has_prefix` and the four-word demonstration.
- `longest_common_word.dfy` (module `LongestCommonWord`): `find_longest_common_word`, its characterisation and the demonstration cases.

The trie is an immutable value. `Put` returns a new trie, or an error for an empty key. The queries take the trie as an argument, so `has_node` and `keys` cannot mutate it. A payload is `Option<Payload<V>>`. `Payload` separates the `True` marker that `put` stores when it gets no value (`Marker`) from a value the caller gave (`Given(v)`). "No key ends here" is `None` and never depends on whether a value is falsy.

The trie invariant `Valid` has two parts: every child has some stored key below it (`Live`), and `size == |Keys(root)|`. A stored key is exactly the path to a marked node, so `|Keys(root)|` is the number of marked nodes. `Empty` establishes the invariant and `Put` keeps it.

## Model

| member | source | states |
|---|---|---|
| Tries.Empty | task01.py:1-9 | a fresh trie stores no key, has size 0 and satisfies the invariant |
| Tries.Stamp | task01.py:23 | the stored payload is the marker exactly when no value was given |
| Tries.KeysLookup | task01.py:33-38 | a key is in the enumerated key set exactly when following its characters reaches a node holding a payload |
| Tries.Insert | task01.py:15-22 | the walk reports a new key (the condition under which `size` grows) exactly when no payload was stored under the key before |
| Tries.InsertLookup | task01.py:15-23 | after the walk the key holds the new payload and every other key keeps its old payload |
| Tries.InsertKeys | task01.py:15-23 | the walk adds exactly the inserted key to the set of stored keys |
| Tries.InsertLive | task01.py:15-19 | the nodes the walk creates all lie on the path to the node it marks, so it creates no dead branch |
| Tries.Put | task01.py:11-23 | an empty key is rejected and nothing is stored; otherwise the key holds the value (or the marker), other keys are untouched, the key set grows by the key, size grows by one iff the key was new, and the invariant is kept |
| Tries.PutTwice | task01.py:21-23 | a second put of the same key overwrites its value (last write wins) and leaves size and the key set unchanged |
| Tries.PutAllKeys | task01.py:11-23 | after a sequence of puts with non-empty keys, the stored keys are exactly the earlier keys plus every key put, and the invariant holds |
| Tries.StoredPrefixHasNode | task01.py:25-31 | every prefix of a stored key, including the empty one, has a node |
| Tries.HasNode | task01.py:25-31 | the empty path always exists; in a trie built by put, has_node(p) holds iff p is empty or some stored key starts with p |
| Tries.PutHasNodePrefixes | task01.py:15-31 | after put(k, v), has_node holds for every prefix of k, including "" and k |
| Tries.Collect | task01.py:34-38 | collect(node, prefix) yields each string "prefix + key stored below node" exactly once, and nothing else |
| Tries.KeysOf | task01.py:33-40 | keys() lists every stored key exactly once and nothing else; on a valid trie the list has `size` entries |
| Homework.CountWordsWithSuffix | task01.py:43-47 | the count equals the number of stored keys ending with the pattern; with the empty pattern it equals size |
| Homework.HasPrefix | task01.py:49-53 | has_prefix(p) equals has_node(p); on a valid trie that is "p is empty or some stored key starts with p" |
| Homework.PutEnumerated | task01.py:56-59 | putting each word of a list with its index as value, in order, into a fresh trie gives a valid trie storing exactly the words |
| Homework.DemoSuffixes | task01.py:62-69 | of the four words, exactly one ends with each of "e", "ion", "a" and "at" |
| Homework.DemoPrefixes | task01.py:72-79 | "app", "ban" and "ca" begin some of the four words; "bat" begins none |
| Homework.Demo | task01.py:55-79 | the demonstration's four counts are 1 and its prefix answers are true, false, true, true |
| LongestCommonWord.FindLongestCommonWord | task02.py:44-55 | an empty list gives ""; otherwise the result is a prefix of every string and no common prefix is longer; a one-string list gives that string |
| LongestCommonWord.ShrinkToFit | task02.py:50-53 | the inner loop turns the longest common prefix of the strings before the current one into the longest common prefix including it, stopping early at the empty string |
| LongestCommonWord.ShrinkStep | task02.py:50-53 | the candidate loses its last character only when the current word does not start with it; then no common prefix so far is that long, and the shorter candidate still starts every earlier string |
| LongestCommonWord.LongestIffCannotExtend | task02.py:48-55 | a string is the longest common prefix of a non-empty list iff it is a common prefix that cannot grow by one character |
| LongestCommonWord.LongestUnique | task02.py:44-55 | a non-empty list has only one longest common prefix |
| LongestCommonWord.FlowerCase | task02.py:61-64 | "fl" is the longest common prefix of flower, flow and flight (the only one, by `LongestUnique`) |
| LongestCommonWord.InterCase | task02.py:66-69 | "inters" is the longest common prefix of interspecies, interstellar and interstate |
| LongestCommonWord.CarCase | task02.py:71-74 | the empty string is the longest common prefix of dog, racecar and car |
| LongestCommonWord.Demo | task02.py:58-74 | the method returns "fl", "inters" and "" on the three demonstration lists, and "" on the empty list |

## Left out

- Type checks: the `isinstance(…, str)` tests (task01.py:12, 44-45, 50-51) cannot fail once arguments are typed `string`. The code raises `TypeError` for a bad key and `ValueError` for a bad pattern or prefix; only the empty-key rejection remains, as the result `Err(EmptyKey)`.
- In-place mutation: `put` mutates the trie and `raise` leaves it untouched. Here `Put` returns a new trie or an error, and on an error the caller keeps the old trie.
- Tries.KeysOf: does not state the order of the list. The source visits a node's children in dict insertion order. Here they are visited in an unspecified order, and the contract holds for every order. Generator laziness is not modelled: the list is built in full, as `list(...)` does.
- Tries.HasNode: the existence reading holds only for tries without dead branches (`Live`). Every trie built by `Empty` and `Put` has that shape, so this covers all tries the source can build.
- Values are not interpreted. A payload is stored and compared, and its truthiness plays no part.
- The `__main__` blocks (task01.py:55-79, task02.py:58-74) print and abort on a failed `assert`. Their literal cases appear as the `Demo` methods and the lemmas listed above; printing and process exit are not modelled.
- `LongestCommonWord` inherits from `Trie` without using it, so the model is a free-standing method over a list of strings.
- LongestCommonWord.ShrinkToFit: the early `return ""` inside the inner loop (task02.py:52-53) becomes a `break` followed by an early return in `FindLongestCommonWord`. The outer method also returns at once when the first string is empty, where the source runs the remaining iterations with the empty prefix. Both give the same result, the empty string.
