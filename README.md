# NYC street trees: a Dafny model of the tree store and its loader

The program reads the New York City street-tree census, one CSV line per tree.
It keeps the valid rows as `Tree` records and answers four queries:
- how many trees there are in total;
- how many trees of a species (substring match, ignoring case) there are;
- how many trees there are per borough;
- how many trees of a species there are in a borough.

There are two implementations of the store:
- `TreeCollection` is a binary search tree (`MyBST` over `BSTNode`). It is
  ordered by species name ignoring case, then by tree id, and rejects
  duplicates. It also keeps five per-borough counters and a list of the
  distinct species;
- `TreeList` is a plain list whose queries scan every record.

This project models both stores, the record type, the line splitter and the
row-acceptance rule of the loader. It then proves what they promise:
- the search tree stays ordered and holds no two equal records;
- `add` and `remove` change the stored set exactly as intended;
- `size` is the number of records;
- the borough counters add up to the number of records and each counts its
  borough;
- a species count agrees with a direct count over the stored records;
- the splitter splits a line of plain fields back into those fields;
- after loading, every accepted line is represented in the store and nothing
  else was added.

Files (one module each):
- `wrappers.dfy` (`Wrappers`): `Option`.
- `text.dfy` (`Text`): the `String`/`Integer` behaviour the code relies on:
  - lower-casing and comparing ignoring case;
  - `contains`, `trim` and `Integer.parseInt`;
  - the zip-code format round trip.
- `records.dfy` (`Records`): `Tree`, its checked constructor, `equals`,
  `compareTo`, `sameName`, `compareName`.
- `bst.dfy` (`BST`): `BSTNode` as an inductive tree, the recursive helpers
  of `MyBST` as functions, and `MyBST` as a class whose methods update
  `root` and `size`.
- `collection.dfy` (`Collection`): `TreeCollection`. Its counters live in an
  array of five, and its species list in a sequence field.
- `treelist.dfy` (`Linear`): `TreeList`, whose queries are loops over the
  list proved against functions on the list.
- `ingest.dfy` (`Ingest`): `splitCSVLine` as a character loop proved against
  a scanner state machine, the row checks of `readFile`, and `readFile` itself
  over a sequence of lines.

## Model

| member | source | states |
|---|---|---|
| BST.BTree.SetData | Binary-Search/BSTNode.java:58-60 | replaces the node's data, keeps both children |
| BST.BTree.SetLeft | Binary-Search/BSTNode.java:66-68 | replaces the left child, keeps data and right child |
| BST.BTree.SetRight | Binary-Search/BSTNode.java:74-76 | replaces the right child, keeps data and left child |
| BST.NewNode | Binary-Search/BSTNode.java:23-28 | a new node holds exactly its data, as a leaf, with no children |
| BST.CompareNodes | Binary-Search/BSTNode.java:87-89 | nodes compare as their data compare |
| BST.MemberCorrect | Binary-Search/MyBST.java:149-159 | in a search tree the descent of `contains` succeeds iff some stored element compares equal to the argument |
| BST.SizeIsElementCount | Binary-Search/MyBST.java:13-14 | a search tree has no two equal elements, so its node count is the number of its elements |
| BST.InOrderSorted | Binary-Search/MyBST.java:205-213 | a property of the search-tree invariant: the in-order listing that `toString` documents is strictly ascending |
| BST.InOrderElements | Binary-Search/MyBST.java:205-213 | a property of the search-tree invariant: the in-order listing has one entry per node and holds exactly the stored elements |
| BST.Traversal | Binary-Search/MyBST.java:215-223 | `inOrderTraversal` as written: an empty tree prints nothing, and a node prints only its own data, because the children's results are dropped |
| BST.TraversalDropsChildren | Binary-Search/MyBST.java:217-221 | a node with a child prints strictly less than its in-order listing |
| BST.InOrderListingCorrect | Binary-Search/MyBST.java:205-223 | the corrected traversal, which keeps the children's results, prints every element in in-order, ascending by `InOrderSorted` |
| BST.Insert | Binary-Search/MyBST.java:51-63 | inserting an element already matched leaves the tree as it is; otherwise the element is added in a new leaf and the node count grows by one |
| BST.InsertKeepsOrder | Binary-Search/MyBST.java:51-63 | insertion keeps the search-tree order |
| BST.LeftmostIsMin | Binary-Search/MyBST.java:167-181 | following left children reaches the smallest element |
| BST.RightmostIsMax | Binary-Search/MyBST.java:189-203 | following right children reaches the largest element |
| BST.Delete | Binary-Search/MyBST.java:94-107 | removing an element that is not matched leaves the tree unchanged |
| BST.DeleteCorrect | Binary-Search/MyBST.java:94-107 | removal drops exactly the elements equal to the argument (one node if there is one) and keeps the order |
| BST.DeleteRootCorrect | Binary-Search/MyBST.java:110-121 | removing a node's data (by its child, or by its predecessor moved up) keeps the order and drops only that data |
| BST.PredecessorMatchesItself | Binary-Search/MyBST.java:117-119 | the predecessor is the only element of the left subtree equal to itself, so the recursive removal takes out exactly one node |
| BST.PredecessorSeparates | Binary-Search/MyBST.java:117-119 | the predecessor lies above the rest of the left subtree and below the whole right subtree, so it can replace the removed data |
| BST.MyBST.constructor | Binary-Search/MyBST.java:19-21 | an empty tree of size 0 |
| BST.MyBST.Contains | Binary-Search/MyBST.java:144-146 | true iff some stored element compares equal to `o` |
| BST.MyBST.Add | Binary-Search/MyBST.java:32-49 | adds iff no equal element is stored; on success the element set grows by exactly `e` and `size` by one; on failure nothing changes; order and the size invariant are kept |
| BST.MyBST.Remove | Binary-Search/MyBST.java:73-90 | removes the elements equal to `o`; when one is stored it reports success and `size` drops by one; on a non-empty tree without `o` it reports failure and changes nothing; on an empty tree it reports success and still decrements `size` |
| BST.MyBST.RemoveIfPresent | Binary-Search/MyBST.java:73-90 | the corrected `remove`: reports success iff an equal element was stored, and keeps `size` equal to the number of elements |
| BST.MyBST.GetPredecessor | Binary-Search/MyBST.java:125-134 | no left child is the error case; otherwise returns the largest element of the left subtree |
| BST.MyBST.First | Binary-Search/MyBST.java:167-181 | the smallest stored element; the empty tree is the error case |
| BST.MyBST.Last | Binary-Search/MyBST.java:189-203 | the largest stored element; the empty tree is the error case |
| BST.RemoveOnEmptyTree | Binary-Search/MyBST.java:82-88 | `remove` on a new tree reports success and leaves `size` at -1 |
| BST.RemoveIfPresentOnEmptyTree | Binary-Search/MyBST.java:82-88 | the corrected removal on a new tree reports failure and leaves `size` at 0 |
| Records.NewTree | Binary-Search/Tree.java:25-108 | each field takes its argument only when that field's check passes, and otherwise keeps its default; the record always satisfies the field checks |
| Records.GetZip | Binary-Search/Tree.java:135-140 | formatting the zip with five digits and parsing it back gives the stored zip |
| Records.Equals | Binary-Search/Tree.java:167-189 | equal iff same id and same species ignoring case; the same id with another species is reported as not equal |
| Records.IdClashIsNotEqual | Binary-Search/Tree.java:175-187 | one id with two species takes the integrity-error branch and yields `false` |
| Records.CompareTo | Binary-Search/Tree.java:230-253 | returns -1, 0 or 1; 0 iff `equals`; otherwise ordered by species ignoring case, and by id for the same species |
| Records.CompareToIsKeyOrder | Binary-Search/Tree.java:230-253 | `compareTo` is the lexicographic order on (lower-cased species, id) |
| Records.CompareToAntisymmetric | Binary-Search/Tree.java:230-253 | swapping the arguments negates the result |
| Records.CompareToTransitive | Binary-Search/Tree.java:230-253 | the order is transitive |
| Records.SameName | Binary-Search/Tree.java:265-270 | true iff the species are equal ignoring case |
| Records.CompareName | Binary-Search/Tree.java:283-290 | the sign of comparing the species ignoring case; 0 iff `sameName` |
| Text.ContainsIffOccurs | Binary-Search/TreeCollection.java:206 | `contains` holds iff the query occurs at some position |
| Text.ZipRoundTrip | Binary-Search/Tree.java:135-140 | five-digit formatting of a zip code parses back to it |
| Text.LexAntisymmetric | Binary-Search/Tree.java:245-251 | string comparison is antisymmetric |
| Text.LexTransitive | Binary-Search/Tree.java:245-251 | string comparison is transitive |
| Collection.CompareToIsOrder | Binary-Search/TreeCollection.java:55-67 | record comparison is an order the search tree can use |
| Collection.BoroughsListed | Binary-Search/TreeCollection.java:14 | a valid borough lower-cases to exactly one of the five distinct counter names |
| Collection.ExactlyOneBorough | Binary-Search/TreeCollection.java:42-45 | a constructed record with a borough bumps exactly one counter |
| Collection.BoroughsPartition | Binary-Search/TreeCollection.java:14-15 | the five per-borough record counts add up to the node count |
| Collection.InsertBoroughCounts | Binary-Search/TreeCollection.java:42-51 | inserting a new record raises its own borough's count by one and leaves the others alone |
| Collection.UnlistedBoroughIsEmpty | Binary-Search/TreeCollection.java:136-144 | a name matching no counter matches no stored record |
| Collection.Count | Binary-Search/TreeCollection.java:112-122 | `count` is at most the node count, and 0 iff no stored record has the probe's name |
| Collection.Count2 | Binary-Search/TreeCollection.java:175-186 | `count2` is at most `count`, and 0 iff no stored record has the name and the borough |
| Collection.CountByName | Binary-Search/TreeCollection.java:100-102 | the placeholder record matters only through its species |
| Collection.SumCounts2AtMost | Binary-Search/TreeCollection.java:160-173 | restricting to a borough never counts more |
| Collection.MatchingOf | Binary-Search/TreeCollection.java:203-210 | exactly the listed names containing the query, case-sensitively |
| Collection.MatchingOfKeepsOrder | Binary-Search/TreeCollection.java:203-210 | the matches keep their listing order |
| Collection.MatchingOfDistinct | Binary-Search/TreeCollection.java:203-210 | matching a list without repeats gives a list without repeats |
| Collection.MatchingOfEmptyQuery | Binary-Search/TreeCollection.java:203-210 | the empty query matches every listed species |
| Collection.SumCountsIsContaining | Binary-Search/TreeCollection.java:96-110 | summing `count` over distinct lower-case matches counts each record whose species contains the query exactly once |
| Collection.CountContainingEmpty | Binary-Search/TreeCollection.java:96-110 | every species contains the empty query |
| Collection.Listed | Binary-Search/TreeCollection.java:46-48 | the species ends up listed; the old list is a prefix of the new one, at most one entry longer and unchanged if the species was listed; a list without repeats stays without repeats |
| Collection.AddKeepsInv | Binary-Search/TreeCollection.java:35-53 | storing a new record keeps the collection invariant, with the record's borough counter bumped and its species listed |
| Collection.TreeCollection.constructor | Binary-Search/TreeCollection.java:20-22 | no records, the five counters at zero, no species listed |
| Collection.TreeCollection.Add | Binary-Search/TreeCollection.java:35-53 | stores the record iff no equal one is stored; then the element set grows by exactly it, `size` by one, its borough counter by one, and its species is listed; otherwise nothing changes |
| Collection.TreeCollection.Store | Binary-Search/TreeCollection.java:41-52 | the storing branch of `add`: keeps the invariant and states the new counters, species list, elements and size |
| Collection.TreeCollection.BumpBorough | Binary-Search/TreeCollection.java:42-45 | the counter loop raises exactly the counter of the record's borough by one |
| Collection.TreeCollection.GetTotalNumberOfTrees | Binary-Search/TreeCollection.java:78-80 | `size` is the node count and the number of distinct stored records |
| Collection.TreeCollection.GetCountByBorough | Binary-Search/TreeCollection.java:136-144 | the number of stored records in the borough named ignoring case; 0 for an unknown name |
| Collection.TreeCollection.GetMatchingSpecies | Binary-Search/TreeCollection.java:203-210 | the listed species containing the query, in listing order, also kept as `matchingSpecies`; the records are unchanged |
| Collection.TreeCollection.GetCountByTreeSpecies | Binary-Search/TreeCollection.java:96-110 | sums `count` over the placeholders of the last computed matches |
| Collection.TreeCollection.GetCountByTreeSpeciesBorough | Binary-Search/TreeCollection.java:160-173 | sums `count2` over the placeholders of the last computed matches |
| Collection.BoroughCountsSumToTotal | Binary-Search/TreeCollection.java:78-80 | the five counters add up to the total number of trees |
| Collection.SpeciesCountIsContainingCount | Binary-Search/TreeCollection.java:96-110 | when every stored species is lower-case, as the loader guarantees: after `getMatchingSpecies(q)`, the species count is the number of stored records whose species contains `q`; for the empty query it is the total |
| Collection.SpeciesBoroughAtMostSpecies | Binary-Search/TreeCollection.java:160-173 | the species-and-borough count never exceeds the species count |
| Linear.CountSpecies | Linear-Search/TreeList.java:39-49 | the count of records whose species contains the query ignoring case is at most the list size |
| Linear.CountSpeciesOfEmptyQuery | Linear-Search/TreeList.java:39-49 | the empty query counts every record |
| Linear.CountSpeciesAppend | Linear-Search/TreeList.java:39-49 | the count over two joined lists is the sum of their counts |
| Linear.CountBothAtMost | Linear-Search/TreeList.java:86-97 | matching species and borough counts no more than either alone |
| Linear.Matching | Linear-Search/TreeList.java:113-125 | every entry is a species of the list that contains the query ignoring case; at most one entry per record |
| Linear.MatchingComplete | Linear-Search/TreeList.java:113-125 | every matching record's species, as written or lower-cased, is in the result |
| Linear.MatchingPrefix | Linear-Search/TreeList.java:113-125 | the result only grows as the scan goes on |
| Linear.MatchingDistinct | Linear-Search/TreeList.java:117-121 | with lower-case species the result has no repeats |
| Linear.MixedCaseRepeats | Linear-Search/TreeList.java:117-121 | two records of species "Oak" put "Oak" in the result twice |
| Linear.MatchingFoldedDistinct | Linear-Search/TreeList.java:117-121 | the corrected check leaves no two entries equal, even ignoring case |
| Linear.FoldedAgreesWhenLower | Linear-Search/TreeList.java:117-121 | on lower-case species the corrected and the original check agree |
| Linear.TreeList.constructor | Linear-Search/TreeList.java:12-14 | an empty list |
| Linear.TreeList.Add | Linear-Search/TreeList.java:9 | the inherited `add` appends the record and returns true |
| Linear.TreeList.GetTotalNumberOfTrees | Linear-Search/TreeList.java:24-26 | the list size |
| Linear.TreeList.GetCountByTreeSpecies | Linear-Search/TreeList.java:39-49 | the number of records whose species contains the query ignoring case |
| Linear.TreeList.GetCountByBorough | Linear-Search/TreeList.java:62-72 | the number of records whose borough contains the query ignoring case |
| Linear.TreeList.GetCountByTreeSpeciesBorough | Linear-Search/TreeList.java:86-97 | the number of records matching both queries; the species test short-circuits, so only records whose species matches need a borough |
| Linear.TreeList.GetMatchingSpecies | Linear-Search/TreeList.java:113-125 | the list's matching species, first occurrence first, with the case-sensitive duplicate check |
| Ingest.SplitCSVLine | Binary-Search/NYCStreetTrees.java:263-318 | the character loop computes exactly the entries of the scanner state machine |
| Ingest.RunAppend | Binary-Search/NYCStreetTrees.java:274-312 | scanning two pieces in turn is scanning their concatenation |
| Ingest.SplitHasNoQuotes | Binary-Search/NYCStreetTrees.java:276-286 | no entry contains a quote character |
| Ingest.RunCounts | Binary-Search/NYCStreetTrees.java:276-305 | after a line, the scanner is inside quotes iff it saw an odd number of quotes, and it has one entry per comma outside quotes |
| Ingest.SplitCount | Binary-Search/NYCStreetTrees.java:296-316 | the number of entries is the number of commas outside quotes, plus one for a non-empty final buffer |
| Ingest.SplitSkipsLeadingWhitespace | Binary-Search/NYCStreetTrees.java:287-295 | whitespace before the first entry is dropped |
| Ingest.OnlyLastEntryTrimmed | Binary-Search/NYCStreetTrees.java:296-316 | trailing whitespace of a plain entry ended by a comma is kept; only the final entry is trimmed |
| Ingest.QuotedEntryKept | Binary-Search/NYCStreetTrees.java:276-305 | a quoted entry keeps its text and loses its quotes |
| Ingest.SplitJoin | Binary-Search/NYCStreetTrees.java:263-318 | splitting comma-joined plain fields, the last one non-empty, gives the fields back |
| Ingest.ParseRow | Binary-Search/NYCStreetTrees.java:105-170 | a row yields a record iff it has 41 entries and passes every check; the record holds the parsed numbers and the lower-cased strings |
| Ingest.LowerKeepsValid | Binary-Search/NYCStreetTrees.java:162-170 | lower-cased checked values still pass the constructor's checks |
| Ingest.IdZeroAccepted | Binary-Search/NYCStreetTrees.java:119-121 | a row with id 0 passes the loader's check and gets id 0 |
| Ingest.Offered | Binary-Search/NYCStreetTrees.java:173 | offering a record to the collection leaves an equal one stored, and keeps what was loaded before |
| Ingest.ReadFile | Binary-Search/NYCStreetTrees.java:96-181 | afterwards every accepted line's record has an equal one stored, only accepted records were added, nothing was lost, and stored species are lower-case |

## Left out

- File handling (`File`, `Scanner`, `FileNotFoundException`), `main`, `outputData` and the console menu are not part of this model. `ReadFile` takes the file's lines as a sequence.
- The coordinates `x_sp` and `y_sp` are floating point. `Double.parseDouble` is a parameter `isDouble` of the loader, and the coordinates are not stored in `Tree`.
- `toString` of every class is not modelled. The helper `inOrderTraversal` of `MyBST` is modelled as written (`Traversal`), next to the in-order listing it evidently means to build (`InOrderListing`); see Findings.
- The getters of `Tree` and `BSTNode` are field reads of the datatypes and have no members of their own.
- Null arguments are not modelled: Dafny values are never null. This covers `add(null)`, `remove(null)`, a null species, and the unreachable `== null` tests of status and health.
- Case folding is ASCII-only. Java folds all of Unicode.
- `compareTo` and `compareToIgnoreCase` are modelled by their sign, not by the character difference Java returns. Callers only test the sign.
- Integer width: `size` and the counters are unbounded. With at most 2^31 - 1 records this matches Java.
- `Integer.parseInt` is modelled for ASCII digits with an optional sign, in the 32-bit range.
- `TreeCollection` extends `MyBST` in Java. Here it holds its own `root` and `size` and reuses the tree functions of `BST` for insertion and lookup.
- `remove`, as `TreeCollection` inherits it, is not modelled on `TreeCollection`; the program never calls it. It updates neither the borough counters nor the species list, and on an empty collection it sets `size` to -1. It would therefore break the collection invariant `TreeCollection.Valid`, which holds for histories of `add` only. The inherited `first` and `last` are not modelled on `TreeCollection` either; on `MyBST` they are `BST.MyBST.First` and `BST.MyBST.Last`.
- The search tree is a value (`BTree`), and `add`/`remove` reassign `root`. Node identity and in-place relinking of children are not modelled.
- `getMatchingSpecies` of `TreeCollection` matches case-sensitively in the code, although its documentation says otherwise. The model follows the code.
- `count2` of `TreeCollection` compares the lower-cased borough with `boroName` as given. So `getCountByTreeSpeciesBorough` matches only a lower-case borough name, although its documentation says it ignores case: "Bronx" never matches. The model (`Collection.Count2`) follows the code.
- Collection.TreeCollection.GetCountByTreeSpecies: requires `matchingSpecies` to have been computed. Java throws a `NullPointerException` before the first `getMatchingSpecies` call, and that failure is not modelled.
- Collection.TreeCollection.GetCountByTreeSpeciesBorough: requires `matchingSpecies` to have been computed, for the same reason. It also requires every stored record to have a borough, because `getBoro().toLowerCase()` fails otherwise.
- Linear.TreeList.GetCountByBorough: requires every record to have a borough, for the same reason as above.
- Collection.TreeCollection.Add: requires a record with a borough (`getBoro()` non-null). Records from the loader always have one.

## Findings

| source | as written | input that shows it | evidently intended | confidence | as-written member | corrected member |
|---|---|---|---|---|---|---|
| Binary-Search/MyBST.java:82-88 | `remove` skips its "not found" branch when `root` is null, so it reports success and decrements `size` | `remove(o)` on a new, empty tree: returns `true`, `size` becomes -1 | report `false` and leave `size` at 0 when nothing is removed | high (not executed) | BST.RemoveOnEmptyTree | BST.RemoveIfPresentOnEmptyTree |
| Linear-Search/TreeList.java:117-121 | the duplicate check looks for the lower-cased name, but the name as written is what gets added | two records whose species is "Oak": the result is ["Oak", "Oak"] | add a species only when no entry equals it ignoring case | high (not executed) | Linear.MixedCaseRepeats | Linear.MatchingFoldedDistinct |
| Binary-Search/MyBST.java:217-221 | `inOrderTraversal` calls itself on both children but drops their results | a tree whose root has a left child holding 1 and whose own data is 2: it prints ", 2" | print the left subtree, the node, then the right subtree: ", 1, 2" | high (not executed) | BST.TraversalDropsChildren | BST.InOrderListingCorrect |
