# Circular array deque and trie insertion, modelled in Dafny

This project models the two in-memory data structures of the repository:

- **`ArrayDeque`** (`proj1/ArrayDeque.java`). It is a double-ended queue stored in a fixed array of eight slots. It keeps a `size` counter and two wrap-around cursors. `nextFront` is the slot the next `addFirst` writes. `nextBack` is the slot the next `addLast` writes. Adds are dropped silently when the deque is full, and the array never grows.
- **`MyTrieSet`** (`lab15/MyTrieSet.java`). It is a character trie of which only `add` has behaviour. `add` walks down from the root, creates each missing child as a non-key node, and marks the last node as a key. `contains` is a stub that returns `false`.

Files:

- `wrappers.dfy`: `Option`, which stands for a Java reference that may be `null`.
- `array_deque.dfy` (module `ArrayDequeModel`): the class `ArrayDeque` and its fields. The Java field `array` is called `data`, because `array` is a reserved word in Dafny. The ghost view `Contents()` holds the items from first to last: the `size` slots that follow `nextFront` cyclically. `Coherent()` holds when `nextBack` sits just past the last item. `removeFirst`, `removeLast` and `get` are modelled exactly as written. Their corrected versions end in `Intended` and are proved against `Contents()`. Each scenario method builds a deque and shows an input on which the written code and its documentation disagree.
- `my_trie_set.dfy` (module `TrieSetModel`): the trie's nodes live in an arena, a sequence of `Node(isKey, children)`. A child link is the index of a node, so the index plays the part of a Java reference. `new Node(false)` appends to the arena. The ghost `labels` record the word that leads to each node, and they witness that the arena is a tree. The method `Add` runs the Java `for` loop and is proved equal to the function `Insert`. The lemmas about `Insert` state what `add` promises.

## Model

| member | source | states |
|---|---|---|
| `ArrayDequeModel.ArrayDeque.constructor` | proj1/ArrayDeque.java:13-19 | A new deque has eight slots, all null, with `arrayLength == 8`, `size == 0`, `nextFront == 0` and `nextBack == 1`. It is empty and coherent. |
| `ArrayDequeModel.ArrayDeque.AddFirst` | proj1/ArrayDeque.java:24-30 | When full, nothing changes. Otherwise the item is stored in slot `nextFront`, `size` goes up by one, `nextFront` becomes `(nextFront - 1 + L) % L` and nothing else changes. The item becomes the new first item, and coherence is kept. |
| `ArrayDequeModel.ArrayDeque.AddLast` | proj1/ArrayDeque.java:36-42 | When full, nothing changes. Otherwise the item is stored in slot `nextBack`, `size` goes up by one, `nextBack` becomes `(nextBack + 1) % L` and nothing else changes. On a coherent deque the item becomes the new last item. |
| `ArrayDequeModel.ArrayDeque.IsEmpty` | proj1/ArrayDeque.java:48-50 | Returns true exactly when the deque holds no items. It changes nothing. |
| `ArrayDequeModel.ArrayDeque.Size` | proj1/ArrayDeque.java:55-57 | Returns the number of items. It changes nothing. |
| `ArrayDequeModel.ArrayDeque.RemoveFirst` | proj1/ArrayDeque.java:76-92 | On an empty deque it returns null and changes nothing. When `nextFront == L - 1`, it returns and clears slot 0, sets `nextFront` to 0 and decrements `size`, which removes the first item. When `nextFront == 0`, indexing slot -1 raises and nothing changes. Otherwise it returns and clears slot `nextFront - 1`, then moves `nextFront` forward. `nextBack` is never changed, and every branch keeps coherence. |
| `ArrayDequeModel.ArrayDeque.RemoveLast` | proj1/ArrayDeque.java:98-111 | Returns slot `nextBack`. If that slot is null, nothing changes. Otherwise the slot is cleared and `nextBack` steps back one, with 0 wrapping to `L - 1`. `size` and `nextFront` never change. |
| `ArrayDequeModel.ArrayDeque.Get` | proj1/ArrayDeque.java:118-123 | Returns null for `index < 0` or `index > L - 1`. Otherwise it returns the physical slot `index`. It changes nothing. |
| `ArrayDequeModel.ArrayDeque.RemoveFirstIntended` | proj1/ArrayDeque.java:72-92 | Corrected `removeFirst`: on an empty deque it returns null. Otherwise it returns the first item and drops exactly that item. Coherence is kept. |
| `ArrayDequeModel.ArrayDeque.RemoveLastIntended` | proj1/ArrayDeque.java:94-111 | Corrected `removeLast`: on an empty deque it returns null. Otherwise it returns the last item and drops exactly that item. Coherence is kept. |
| `ArrayDequeModel.ArrayDeque.GetIntended` | proj1/ArrayDeque.java:113-123 | Corrected `get`: returns the item at logical position `index`, counted from the front. When there is no such item, it returns null. |
| `ArrayDequeModel.WindowPushFront` | proj1/ArrayDeque.java:26-28 | Writing at the front cursor and stepping the cursor back prepends exactly one item to the items. |
| `ArrayDequeModel.WindowPushBack` | proj1/ArrayDeque.java:38-40 | Writing in the slot past the last item appends exactly one item. |
| `ArrayDequeModel.WindowPopFront` | proj1/ArrayDeque.java:81-84 | The slot after the front cursor holds the first item. Clearing it and advancing the cursor drops exactly that item. |
| `ArrayDequeModel.WindowPopBack` | proj1/ArrayDeque.java:98-111 | The slot `front + size` holds the last item. Clearing it drops exactly that item. |
| `ArrayDequeModel.RemoveFirstMissesFront` | proj1/ArrayDeque.java:85-88 | After `addFirst(1)` and `addFirst(2)`, the first item is 2, but `removeFirst` returns null, `size()` drops to 1 and 1 is the first item again, so 2 is lost. |
| `ArrayDequeModel.RemoveFirstOutOfBounds` | proj1/ArrayDeque.java:86 | After `addLast(1)`, the first item is 1, but `removeFirst` indexes slot -1. |
| `ArrayDequeModel.RemoveLastMissesBack` | proj1/ArrayDeque.java:99-100 | After `addLast(1)`, the last item is 1, but `removeLast` returns null and `size()` stays 1. |
| `ArrayDequeModel.RemoveLastOnFullDeque` | proj1/ArrayDeque.java:98-111 | After `addLast(1)` through `addLast(8)`, the last item is 8, but `removeLast` returns 1 and `size()` stays 8. |
| `ArrayDequeModel.GetReadsPhysicalSlot` | proj1/ArrayDeque.java:122 | After `addLast(7)`, the first item is 7, but `get(0)` returns null. |
| `TrieSetModel.MyTrieSet.constructor` | lab15/MyTrieSet.java:5-14 | A trie starts as one non-key root node and holds no keys. |
| `TrieSetModel.MyTrieSet.Contains` | lab15/MyTrieSet.java:21-24 | Returns false for every key. |
| `TrieSetModel.MyTrieSet.Add` | lab15/MyTrieSet.java:26-38 | The loop computes `Insert`. An empty key changes nothing. Afterwards the key is a member, the keys are exactly the old keys plus the key, every node, link and key mark is kept, and the tree shape is kept. |
| `TrieSetModel.MyTrieSet.ContainsIntended` | lab15/MyTrieSet.java:21-24 | Corrected `contains`: walks the key from the root and returns true exactly when the key is a member. |
| `TrieSetModel.ContainsMissesAddedKey` | lab15/MyTrieSet.java:22-24 | After `add("a")`, "a" is stored, but `contains("a")` returns false. |
| `TrieSetModel.FollowFrom` | lab15/MyTrieSet.java:30-35 | Following a word down child links ends on a node of the arena or fails. Following the empty word stays on the starting node. |
| `TrieSetModel.Extend` | lab15/MyTrieSet.java:32-33 | A created child is a non-key node with no children, and every link still names a node of the arena. |
| `TrieSetModel.Mark` | lab15/MyTrieSet.java:37 | Marking sets `isKey` on the node and keeps every link inside the arena. |
| `TrieSetModel.Descend` | lab15/MyTrieSet.java:29-37 | The loop's result keeps every link inside the arena and never has fewer nodes. |
| `TrieSetModel.FollowConcat` | lab15/MyTrieSet.java:30-35 | Walking `u + v` is walking `u`, then walking `v` from where `u` ended. |
| `TrieSetModel.FollowLabel` | lab15/MyTrieSet.java:30-35 | In a tree, a walk ends on the node whose label is the start's label followed by the word. |
| `TrieSetModel.FollowPreserved` | lab15/MyTrieSet.java:32-35 | A walk that succeeds reaches the same node after updates that keep every node and link. |
| `TrieSetModel.KeysAreLabels` | lab15/MyTrieSet.java:37 | In a tree, the keys are exactly the labels of the marked nodes. |
| `TrieSetModel.ExtendTree` | lab15/MyTrieSet.java:32-33 | Creating a missing child keeps every node and link and keeps the arena a tree. The new node's label is its parent's label plus the character. |
| `TrieSetModel.ExtendKeys` | lab15/MyTrieSet.java:32-33 | Creating a missing child changes no key. |
| `TrieSetModel.MarkKeys` | lab15/MyTrieSet.java:37 | Marking a node keeps the tree, and the keys gain exactly that node's label. |
| `TrieSetModel.DescendPreserves` | lab15/MyTrieSet.java:30-37 | The loop reuses every existing node and link, replaces no child and unmarks nothing. |
| `TrieSetModel.DescendReaches` | lab15/MyTrieSet.java:30-37 | After the loop, walking the rest of the key from the starting node ends on a key node. |
| `TrieSetModel.DescendExisting` | lab15/MyTrieSet.java:32-37 | When the rest of the key already leads to a key node, the loop changes nothing. |
| `TrieSetModel.DescendKeys` | lab15/MyTrieSet.java:30-37 | Started on the node labelled `key[..i]`, the loop adds exactly `key` to the keys. |
| `TrieSetModel.DescendTouchesOnlyPath` | lab15/MyTrieSet.java:30-37 | Nodes whose label is not a prefix of the key are unchanged. Only the node labelled by the key can change its mark. |
| `TrieSetModel.InsertMarksKey` | lab15/MyTrieSet.java:29-37 | After `add(key)` with a non-empty key, following the key from the root reaches a key node. |
| `TrieSetModel.InsertPreserves` | lab15/MyTrieSet.java:32-37 | `add` keeps every node, link and key mark. Existing children are reused and never replaced. |
| `TrieSetModel.InsertKeys` | lab15/MyTrieSet.java:26-38 | The keys after `add(key)` are the keys before plus `key`. An empty key adds nothing. |
| `TrieSetModel.InsertTouchesOnlyPath` | lab15/MyTrieSet.java:30-37 | `add` changes only the nodes on the key's path, and among them it marks only the last. Intermediate nodes keep their `isKey`. |
| `TrieSetModel.InsertIdempotent` | lab15/MyTrieSet.java:32-37 | Adding the same key twice gives the same trie as adding it once. |

## Left out

- `printDeque` (proj1/ArrayDeque.java:63-70) writes to the console and nothing else, so it is not modelled.
- Null items are not modelled. Java accepts `addFirst(null)` and `addLast(null)`, and a stored null cannot be told apart from an empty slot. Here items are non-null values and an empty slot is `None`.
- `RemoveFirst`: the ArrayIndexOutOfBoundsException for slot -1 is returned as the value `IndexOutOfBounds(-1)`. It is not propagated as an exception. The state is unchanged, as in Java, where the read fails before any write.
- proj1/ArrayDequeTest.java expects `size()` to be 8 on a fresh deque, which contradicts the constructor. Its other checks only print. It is not part of this model.
- `MyTrieSet.clear`, `keysWithPrefix` and `longestPrefixOf` (lab15/MyTrieSet.java:17-19, 40-48) are empty or return null, so they have no behaviour to model.
- `MyTrieSet.root` is never assigned (lab15/MyTrieSet.java:14). As written, every `add` of a non-empty key throws NullPointerException at the first `curr.map`. The model's constructor starts from an empty non-key root node instead.
- `MyTrieSet.Add`: a null key takes the same early return as the empty key (lab15/MyTrieSet.java:27). Keys here are non-null strings, so only the empty-key case is modelled.
- Trie nodes are arena entries, not separate heap objects. A node index stands for a Java reference, so sharing and in-place update keep their meaning. `HashMap` iteration order and hashing are not modelled, since `add` never iterates.
- Java `char` is a UTF-16 code unit. Here it is Dafny's `char`, compared only for equality. A supplementary character is two Java chars, and so two trie levels, but one Dafny char. A Dafny string cannot hold a lone surrogate. The proved trie properties do not depend on the alphabet.
- The gitlet version-control engine is not part of this model. Of it, only proj2/gitlet/Head.java is available, and that file only reads and writes files through classes that are not available. proj3/bearmaps/server/handler/impl/RasterAPIHandler.java (floating-point tile arithmetic, HTTP and image I/O) and lab24/RegexPuzzles.java (regular-expression and image I/O glue) are not part of this model either.

## Findings

| source | as written | input that shows it | evidently intended | confidence | as-written member | corrected member |
|---|---|---|---|---|---|---|
| proj1/ArrayDeque.java:85-88 | `removeFirst` reads and clears slot `nextFront - 1`, then moves `nextFront` forward | new deque, `addFirst(1)`, `addFirst(2)`, `removeFirst()` returns null, `size()` drops to 1 and 2 is no longer an item | remove and return the first item, which is in slot `(nextFront + 1) % 8` | high; not executed | `ArrayDequeModel.RemoveFirstMissesFront` | `ArrayDequeModel.ArrayDeque.RemoveFirstIntended` |
| proj1/ArrayDeque.java:86 | with `nextFront == 0`, the index `nextFront - 1` is -1 | new deque, `addLast(1)`, `removeFirst()` throws ArrayIndexOutOfBoundsException | return 1 | high; not executed | `ArrayDequeModel.RemoveFirstOutOfBounds` | `ArrayDequeModel.ArrayDeque.RemoveFirstIntended` |
| proj1/ArrayDeque.java:99-103 | `removeLast` reads slot `nextBack`, the empty slot after the last item | new deque, `addLast(1)`, `removeLast()` returns null and `size()` stays 1 | return 1 and leave the deque empty | high; not executed | `ArrayDequeModel.RemoveLastMissesBack` | `ArrayDequeModel.ArrayDeque.RemoveLastIntended` |
| proj1/ArrayDeque.java:98-111 | `removeLast` never decrements `size`; on a wrapped deque slot `nextBack` holds the first item | new deque, `addLast(1)` … `addLast(8)`, `removeLast()` returns 1 and `size()` stays 8 | return 8 and leave size 7 | high; not executed | `ArrayDequeModel.RemoveLastOnFullDeque` | `ArrayDequeModel.ArrayDeque.RemoveLastIntended` |
| proj1/ArrayDeque.java:122 | `get` returns the physical slot `array[index]` | new deque, `addLast(7)`, `get(0)` returns null | return the item at position `index` from the front, 7 | high; not executed | `ArrayDequeModel.GetReadsPhysicalSlot` | `ArrayDequeModel.ArrayDeque.GetIntended` |
| lab15/MyTrieSet.java:22-24 | `contains` returns false for every key | with the model's initialised root (as written `root` is never assigned and `add` throws, see "## Left out"): new trie, `add("a")`, `contains("a")` returns false | return true for a key that was added | high; not executed | `TrieSetModel.ContainsMissesAddedKey` | `TrieSetModel.MyTrieSet.ContainsIntended` |
