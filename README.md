# Dictionary ADT: a verified model

`Dictionary.c` implements a dictionary of `(key, value)` pairs as an
unbalanced binary search tree. Keys are C strings compared with `KEY_CMP`
(strcmp) and values are ints. A `Dictionary` handle holds the root pointer,
the pair count `numPairs` and the uniqueness flag `isUnique`. Each `NodeObj`
holds a pair, a `left` and a `right` child, and a `prev` pointer to its
parent. The operations are:

- `newDictionary`;
- `size` and `getUnique`;
- `lookup`, which uses the recursive search `findKey`;
- `insert`, which walks down in a loop and then attaches the new node;
- `makeEmpty`, which frees the nodes through the recursive `deleteAll`;
- `printDictionary`, which prints through the recursive `inOrder`.

The model is split into these modules:

- `Keys` (keys.dfy): `KeyCmp`, the sign of a strcmp-like comparison on
  character strings, and the order facts the tree relies on.
- `Trees` (trees.dfy): the abstract shape. It has a `Tree` datatype, the
  functional insertion `Ins`, which follows insert's tie-break (equal keys go
  right), the search `Find`, the in-order contents `Flatten`, and the ordering
  invariant `Ordered`.
- `History` (history.dfy): the dictionary seen as the sequence of pairs
  inserted since it was created or last emptied.
  - `Build` gives the tree those inserts produce.
  - `StableSort` gives the order the dump prints: sorted by key, with equal
    keys in insertion order.
  - `Filter` gives the pairs with a given key.
- `Format` (format.dfy): a dump line, `"%s %d"`, and a parser that reads a
  line back.
- `Arena` (arena.dfy): the `NodeObj` records.
  - Pointers are indices into a sequence of records, and NULL is `NIL`.
  - A new node is appended at the end of the sequence and hangs under an
    earlier node, so every child link points forward.
  - `TreeAt` reads the tree off the records.
  - `WellFormed` states that the records form one tree: the subtrees are
    disjoint, every `prev` names the node's parent, the root's `prev` is
    NULL, and every record is reachable from the root.
  - `findKey`, `inOrder` and `deleteAll` are recursive functions over the
    records.
  - insert's loop is the method `Descend`.
  - The pointer updates after the loop are `Attach`.
- `DictionaryADT` (dictionary.dfy): the class `Dictionary`.
  - Its fields are `nodes`, `root`, `numPairs` and `isUnique`, plus the
    ghost `History`.
  - Its invariant is `Valid()`: the records are well formed,
    `numPairs == |nodes| == |History|`, and the tree is `Build(History)`.
    Also, when `getUnique` reports 1, the keys of `History` are distinct.
  - Each method's contract ties its result or its new state to `History`.
- `Scenarios` (scenarios.dfy): short client runs of the class, stated as
  contracts.

`lookup` answers with the value of the first node on the search path whose
key compares equal. An equal key inserted later always goes into that node's
right subtree, so with repeated keys the answer is the value of the pair
inserted **first** (`EarliestValue`, Dictionary.c:65-66 and 174-177);
`Scenarios.RepeatedKey` proves it for two pairs with the same key.

`getUnique` returns 0 when the stored flag is 0 and 1 for any other flag.

## Model

| member | source | states |
|---|---|---|
| Keys.KeyCmp | Dictionary.c:65-67 | The comparison is -1, 0 or 1, and it is 0 exactly when the two keys are equal. |
| Keys.Trichotomy | Dictionary.c:174-178 | For any two keys, exactly one of less, equal or greater holds, so every key takes exactly one branch of the walk. |
| Keys.LessTransitive | Dictionary.c:216-217 | The key order printDictionary sorts by is transitive. |
| Trees.Find | Dictionary.c:64-71 | A successful search returns a subtree whose root key equals k and whose pair is stored in the tree. |
| Trees.Ins | Dictionary.c:168-188 | Attaching the new leaf makes the tree exactly one node larger. |
| Trees.InsElements | Dictionary.c:168-188 | Insertion adds exactly the pair (k, v) to the multiset of stored pairs. Every other pair stays. |
| Trees.InsOrdered | Dictionary.c:172-188 | Insertion preserves the ordering invariant: left keys compare less and right keys compare greater or equal. |
| Trees.FindMisses | Dictionary.c:64-71 | On an ordered tree, the search returns NULL exactly when no stored key equals k. |
| Trees.FindIns | Dictionary.c:168-188 | After an insertion, a key that was found keeps the same pair. A key that was missing is found exactly when it is the inserted key, and then the new pair is found. |
| History.BuildOrdered | Dictionary.c:155-190 | Every tree produced by a sequence of inserts satisfies the ordering invariant. |
| History.BuildSize | Dictionary.c:189 | The tree built by n inserts has n nodes. |
| History.FlattenBuild | Dictionary.c:204-211 | The in-order pairs of the built tree are the stable sort, by key, of the inserted pairs. |
| History.StableSortSpec | Dictionary.c:213-217 | The dump order is sorted by key and is a permutation of the inserted pairs. For every key, the pairs with that key appear in insertion order. |
| History.FindBuild | Dictionary.c:137-146 | Searching the built tree misses exactly when no inserted pair has key k. Otherwise it finds the earliest inserted pair with key k. |
| History.DistinctKeysAppend | Dictionary.c:161-166 | Appending a pair whose key is absent keeps all keys distinct. |
| Format.FormatNat | Dictionary.c:208 | The decimal form of a natural number is non-empty, consists only of digits, and has no leading zero: it starts with 0 only for 0 itself. |
| Format.Lines | Dictionary.c:208 | The dump has one line per pair, and line i is the key, a space and the value of pair i. |
| Format.ParseFormatInt | Dictionary.c:208 | Reading back the `%d` form of any int gives the same int. |
| Format.LineRoundTrip | Dictionary.c:208 | Every dump line reads back as the pair it was written from: the key is everything before the last space, and it may itself contain spaces. |
| Arena.NewNode | Dictionary.c:33-40 | A new node holds (key, value) with left, right and prev NULL; on its own it is a well-formed one-node tree, the leaf holding the pair. |
| Arena.Reach | Dictionary.c:53-59 | The nodes reachable from r include r and lie at r or after it. |
| Arena.FindKey | Dictionary.c:64-71 | findKey on the records returns the node whose subtree is the abstract search result. |
| Arena.InOrder | Dictionary.c:204-211 | The lines inOrder prints are the dump lines of the in-order pairs of the subtree. |
| Arena.DeleteAll | Dictionary.c:53-59 | deleteAll frees exactly the nodes reachable from r, each once, and frees every node after its children. |
| Arena.DeleteAllFreesAll | Dictionary.c:194-195 | On a well-formed dictionary, deleteAll from the root frees every node. |
| Arena.Walk | Dictionary.c:172-179 | The walk ends at NULL only when the tree is empty. Otherwise it ends at a reachable node whose child slot in the walk's direction is NULL. |
| Arena.Descend | Dictionary.c:170-179 | insert's loop returns the node where the walk from the root ends, which is NULL for an empty tree. |
| Arena.Attach | Dictionary.c:180-188 | The records after the attachment: one node more, every child link still pointing forward. |
| Arena.AttachKeeps | Dictionary.c:180-188 | About `Attach`: the new node is a leaf holding (k, v) whose prev is the attachment node B. B's child slot for k now points at it, and every other node and field is unchanged. |
| Arena.AttachFrame | Dictionary.c:180-188 | Subtrees that do not contain the attachment node are unchanged. |
| Arena.AttachAlongWalk | Dictionary.c:180-188 | Every subtree on the walk grows by the new leaf exactly as the functional insertion says. |
| Arena.AttachReach | Dictionary.c:180-188 | A subtree that contains the attachment node gains exactly the new node. |
| Arena.AttachWellFormed | Dictionary.c:180-188 | Attaching at the end of the walk keeps the records one well-formed tree. The tree is rooted at the new node when it was empty, and it becomes the functional insertion of (k, v). |
| Arena.AttachDisjoint | Dictionary.c:180-188 | Subtrees stay disjoint after the attachment. |
| Arena.AttachParentLinks | Dictionary.c:184-187 | Every child still names its parent in prev after the attachment. |
| DictionaryADT.AsWrittenAdmitsDuplicate | Dictionary.c:161 | With the check as written and flag 2, getUnique reports 1, yet a second pair with the same key is stored. |
| DictionaryADT.InsertKeepsKeysDistinct | Dictionary.c:151-154 | With the check as documented, a dictionary that reports itself unique keeps its keys distinct across every insert. |
| DictionaryADT.EmptyRepresents | Dictionary.c:83-90 | The empty handle satisfies the invariant. |
| DictionaryADT.InsertRepresents | Dictionary.c:168-189 | An accepted insert keeps the invariant. The tree becomes the functional insertion, stays ordered, and its multiset gains (k, v). |
| DictionaryADT.Dictionary.constructor | Dictionary.c:83-90 | newDictionary returns an empty, valid dictionary with the given flag. root is NULL and the count is 0. |
| DictionaryADT.Dictionary.Size | Dictionary.c:106-113 | size equals the number of pairs inserted since the last clear, the number of nodes reachable from root, and the length of the in-order contents. |
| DictionaryADT.Dictionary.GetUnique | Dictionary.c:118-131 | getUnique returns 0 or 1, and it returns 0 exactly when the flag is 0. |
| DictionaryADT.Dictionary.Lookup | Dictionary.c:137-146 | lookup returns the earliest inserted value for k. It returns VAL_UNDEF when no pair has key k, and otherwise a value stored with k. |
| DictionaryADT.Dictionary.Insert | Dictionary.c:155-190 | insert refuses exactly when getUnique reports 1 and the key is present, and then changes nothing. Otherwise it appends the pair, raises the count by 1, attaches the leaf where the walk ends, and keeps the tree ordered. The multiset grows by (k, v), and the flag never changes. |
| DictionaryADT.Dictionary.Link | Dictionary.c:168-189 | The walk and attachment of insert. The new state is the attachment at the walk's end, the count is one higher, and the tree is the functional insertion, still ordered. |
| DictionaryADT.Dictionary.MakeEmpty | Dictionary.c:194-198 | makeEmpty frees every node once, children before parents. root becomes NULL and the count 0, the flag is unchanged, and the result depends only on the flag. |
| DictionaryADT.Dictionary.PrintDictionary | Dictionary.c:218-226 | The dump is one line per stored pair, in the stable key order of the inserted pairs. |
| Scenarios.SortedDump | Dictionary.c:213-217 | A unique dictionary given keys b, a, c with a < b < c dumps a, b, c and has size 3. |
| Scenarios.RepeatedKey | Dictionary.c:137-146 | Without uniqueness, two pairs with key k are both kept. lookup returns the first value, and the dump lists the pairs in insertion order. |
| Scenarios.RefusedDuplicate | Dictionary.c:161-166 | In unique mode, a second insert of "k" is refused. The size stays 1 and lookup still returns 1. |
| Scenarios.FlagKept | Dictionary.c:118-131 | getUnique gives the same answer before and after insert and makeEmpty. It is 0 exactly when the flag is 0, and 1 otherwise. |
| Scenarios.FreshIsEmpty | Dictionary.c:83-90 | A new dictionary has size 0, its lookup returns VAL_UNDEF for every key, and its dump is empty. |
| Scenarios.ClearTwice | Dictionary.c:194-198 | After makeEmpty, lookup returns VAL_UNDEF and the size is 0, whatever the dictionary held. A second makeEmpty leaves the size at 0. |

## Left out

- Memory: `malloc`, the `assert` on its result, `freeNode` and `freeDictionary` (Dictionary.c:33-49, 92-98) are not modelled. Nodes are records in a sequence. makeEmpty drops them and returns, as a ghost result, the order in which deleteAll would free them.
- NULL handles: the `fprintf(stderr, …)` and `exit` paths of size, getUnique, lookup, insert and printDictionary are not modelled. A `Dictionary` reference is never null.
- DictionaryADT.Dictionary.Insert: a duplicate key in unique mode returns `DuplicateKey(k)` and leaves the dictionary unchanged. The code prints a message and exits the process instead.
- DictionaryADT.Dictionary.Insert: the duplicate check fires for any nonzero flag, as getUnique and the header comment describe. The code fires it only for a flag equal to 1 (see Findings).
- DictionaryADT.Dictionary.PrintDictionary: the `FILE*` sink and `fprintf` are replaced by the returned sequence of lines, without the trailing newlines.
- The `cursor` field is not modelled; the code assigns it once and never reads it.
- Dictionary.h is not part of this model. The model takes `KEY_TYPE` as a character string, `VAL_TYPE` as `int`, `KEY_CMP` as strcmp (sign only, comparing character codes), `KEY_UNDEF` as NULL and `VAL_UNDEF` as the constant `ValUndef` (-1). No proof depends on the value of `ValUndef`.
- Keys are stored by pointer in the C code. The model stores them as values, so a caller that later changes a key string in place is not modelled.
- C `int` overflow of `numPairs` (more than INT_MAX pairs) is not modelled; counts are unbounded integers.
- `newDictionary` leaves `root` uninitialised. The model starts with `root` as NULL.
- The recursion depth of findKey, deleteAll and inOrder on a degenerate tree (stack exhaustion) is not modelled.

## Findings

| source | as written | input that shows it | evidently intended | confidence | as-written member | corrected member |
|---|---|---|---|---|---|---|
| Dictionary.c:161 | The duplicate check runs only when `isUnique` is exactly 1. | `newDictionary(2)`, then `insert("k", 1)` and `insert("k", 2)`: getUnique reports 1, yet both pairs are stored. | The check should run whenever getUnique reports 1, that is for any nonzero flag, as the header comment at lines 152-154 states. | not executed | DictionaryADT.AsWrittenAdmitsDuplicate | DictionaryADT.InsertKeepsKeysDistinct |
