# Models of the selector engine, callback lists, upload queue and resource creation

This project models the parts of the repository where simple intentions are carried out by intricate code,
and proves that the code does what is intended.

* **Selector engine** (Sizzle inside jQuery 3.3.1): the document is a finite tree (`Dom`), `Selectors` says what a
  selector means and what the compiled closures are, `SelectorCompiler` compiles, `NodeCache` and `Engine` run
  compiled selectors with the caches left on nodes, `NthChild` counts siblings, `QueryPlan` is the seeding plan,
  `Lexer`, `Tokenizer` and `SelectorCache` split, print and remember selectors, `DocumentOrder` and `SortOrder` sort
  results. `:nth-last-child` remembers positions that depend on the order of tests (`LastPositions`, `PositionScans`);
  `Outcomes` says what closures answer then without caches on the nodes, `SafeOrder` and `CarefulSelectors` when these
  are the plain answers, `QueryRuns` what whole queries come to, and `MisleadingOrder` has one that goes wrong.
  `ScanRange` is about what a scan can see, `NthArgument` about the an+b notation, and `AttributeTests` about the
  attribute operators. The main result is
  `Engine.Engine.Select`: for every selector, compiling, caching, seeding and the leading-id reduction together return
  what the query without caches returns, and under the two conditions named below that is exactly what a scan by the
  meaning of the selector returns.
* **Callback lists, deferreds and `when`** (jQuery): `Callbacks`, `Deferred` and `When` are machines whose steps are
  the commands that callbacks may issue while lists are firing; a history is any finite sequence of steps.
  `OwedCalls` says what a list still has to call and how every command changes that, `CallbackMemory` what lists with
  memory, locked lists and `once` lists call over whole runs, and `DeferredRuns` where a deferred gets to.
  `CallbackList`, `DeferredObject` and `When.WhenCall` are the objects, proved to be these machines.
* **Upload queue** (FineUploader 3.0): `Uploads` is the machine of the two cooperating objects in `UploadObjects`.
* **Sliding select field** (`DynamicSelect`), **resource creation of jwt-to-rbac** (`RbacResources`, `RbacHandler`),
  **suffix creation in LDAP** (`SuffixCreation`) and the **card number check** (`Luhn`).

Answers that come from outside are parameters or chosen nondeterministically: what the engine's `sort` made of the
results, whether an API or LDAP call succeeds (or that all do, which `reliable` says), the answers of the uploader's
callbacks. Whether a selector text looks
like a positional pseudo-class, and whether it has a `+` or `~` anywhere, are parameters of `Engine.Engine.Select`.

Where a promise does not hold for every input, the models say exactly when it does: positions remembered by
`:nth-last-child` (`LastPositions.AnsweredExactly`; `MisleadingOrder.SelectsWrongly` is a query with a wrong result),
a context directly under a fragment (`ScanRange.ScanFindsAllExactly`), seeding by an id
(`QueryPlan.IdSeedsNeedUniqueIds`), `~=` with a check that is no word (`AttributeTests.WordIsStandardExactly`),
keywords in capitals (`NthArgument.ArgumentReadExactly`), of-type positions (`NthChild.PositionIsStandard`), the
comparator at the root of a detached tree (`SortOrder.Compare`), dropping repeats that do not stand together
(`SortOrder.UniqueSort`), cancelling and retrying uploads (`Uploads.CancelKeepsExactly`,
`Uploads.ManualRetryKeepsExactly`), storing in a bounded cache (`SelectorCache.Cache.Store`), creating a suffix
whose superiors are missing (`SuffixCreation.Directory.AddSuffix`), and setting up a select
field (`DynamicSelect.SelectField.InitSelect`).

`Engine.Engine.Select` returns the full scan if ids are unique below the context and the groups are careful
(`CarefulSelectors.Careful`): every compound with a `:nth-last-child` test, other than `:nth-last-child(n)`, is followed
by the same number of `+`, and by no `~`, up to the end of its run of sibling combinators. Both can be checked before
the call. What it returns otherwise is `QueryRuns.QueryRun`.

`dafny verify dfyconfig.toml` checks everything.

## Model

| member | source | states |
|---|---|---|
| SelectorCompiler.WalkMeaning | TODO/ldap/docker-ldap-account-manager/upstream/lam/templates/lib/100_jquery-3.3.1.js:2208-2269 | following `parentNode` or `previousSibling` to the closest or to any match succeeds exactly when some element in the relation of the combinator matches, for all four combinators and for the context check that also visits non-elements |
| SelectorCompiler.SubjectOfCombinator | TODO/ldap/docker-ldap-account-manager/upstream/lam/templates/lib/100_jquery-3.3.1.js:2437-2439 | appending a combinator: e is then a subject exactly when some element related to it is a subject of what came before |
| SelectorCompiler.SubjectOfTest | TODO/ldap/docker-ldap-account-manager/upstream/lam/templates/lib/100_jquery-3.3.1.js:2440-2459 | appending a simple test to the last compound: its subjects are the old ones that pass the test |
| SelectorCompiler.MatcherFromTokens | TODO/ldap/docker-ldap-account-manager/upstream/lam/templates/lib/100_jquery-3.3.1.js:2409-2465 | for every token list, tree, context and element, the closure that the right-to-left loop builds accepts exactly the elements that some left-to-right assignment of elements to compounds ends with, the leftmost one inside the context; every combinator closure gets a name that no other has |
| SelectorCompiler.CombinatorMeans | TODO/ldap/docker-ldap-account-manager/upstream/lam/templates/lib/100_jquery-3.3.1.js:2437-2439 | wrapping the closures so far into one combinator closure keeps their meaning |
| SelectorCompiler.BaseMeans | TODO/ldap/docker-ldap-account-manager/upstream/lam/templates/lib/100_jquery-3.3.1.js:2416-2434 | the foundational closure holds exactly where the leftmost element is anchored at the context |
| NodeCache.Opened | TODO/ldap/docker-ldap-account-manager/upstream/lam/templates/lib/100_jquery-3.3.1.js:2233-2234 | a walk starts with a fresh cache array that no node holds, so nothing that was right becomes wrong |
| NodeCache.Hit | TODO/ldap/docker-ldap-account-manager/upstream/lam/templates/lib/100_jquery-3.3.1.js:2255-2259 | a slot that carries the current run number and the name of the closure was finished by a walk of the same closure; it holds just the answer that this walk would come to from here, with nothing left to be tested, and handing it back makes it right for all the nodes the walk has passed |
| NodeCache.Placed | TODO/ldap/docker-ldap-account-manager/upstream/lam/templates/lib/100_jquery-3.3.1.js:2260-2262 | putting the unfinished array on a node cannot be mistaken for an answer, by this walk or by a nested one |
| NodeCache.Failed | TODO/ldap/docker-ldap-account-manager/upstream/lam/templates/lib/100_jquery-3.3.1.js:2264-2267 | after a failure at a node, whatever nested closures overwrote and tested, every node that still holds the array awaits the same answer as the nodes ahead |
| NodeCache.Succeeded | TODO/ldap/docker-ldap-account-manager/upstream/lam/templates/lib/100_jquery-3.3.1.js:2264-2267 | after a success the shared array answers yes for every node that holds it, and yes is right for each, for every closure |
| NodeCache.Exhausted | TODO/ldap/docker-ldap-account-manager/upstream/lam/templates/lib/100_jquery-3.3.1.js:2227-2269 | a walk that runs out of nodes leaves a no on all its nodes, and no is right for each, for every closure |
| NodeCache.SlotsStay | TODO/ldap/docker-ldap-account-manager/upstream/lam/templates/lib/100_jquery-3.3.1.js:2253-2259 | whatever is tested later in the run, every finished slot stays right |
| Engine.Engine.VisitNode | TODO/ldap/docker-ldap-account-manager/upstream/lam/templates/lib/100_jquery-3.3.1.js:2245-2266 | one round of the cached loop gives the answer of the uncached walk, with the same tests made, or leaves it to the nodes ahead, and keeps every finished slot of the run right; for every closure |
| Engine.Engine.MatchWalk | TODO/ldap/docker-ldap-account-manager/upstream/lam/templates/lib/100_jquery-3.3.1.js:2227-2269 | for every closure the cached walk returns what the uncached one returns and leaves the same positions remembered, through any sequence of matches in a run, with nested closures overwriting slots and stale slots left by earlier runs |
| Engine.Engine.MatchClosest | TODO/ldap/docker-ldap-account-manager/upstream/lam/templates/lib/100_jquery-3.3.1.js:2215-2224 | the walk for `>` and `+` asks the closest visited node only, and its answer is that of the uncached walk after the tests made before |
| Engine.Engine.Match | TODO/ldap/docker-ldap-account-manager/upstream/lam/templates/lib/100_jquery-3.3.1.js:2272-2285 | for every closure, tree and run: the answer, and the positions remembered then, are those of the evaluation without caches on the nodes after what has been tested before |
| Engine.Engine.Compile | TODO/ldap/docker-ldap-account-manager/upstream/lam/templates/lib/100_jquery-3.3.1.js:2578-2606 | compiled groups, last first, mean what their token lists mean, and are the same closures but for names whatever was compiled before |
| Engine.Engine.SuperMatcher | TODO/ldap/docker-ldap-account-manager/upstream/lam/templates/lib/100_jquery-3.3.1.js:2467-2576 | under a new run number, whatever the caches hold, the result for any closures and elements is that of the evaluation without caches; over elements in document order, if all closures test remembered positions equally many places before the path to the root, it is the sublist of elements that one of the groups accepts |
| Engine.Engine.Select | TODO/ldap/docker-ldap-account-manager/upstream/lam/templates/lib/100_jquery-3.3.1.js:2617-2687 | for every selector, with the leading-id reduction, seeding and filtering together, the result is that of the same query without caches, so nothing of earlier queries shows in it; it is the full scan in document order whenever ids are unique below the context and the groups are careful |
| Engine.Engine.SelectFrom | TODO/ldap/docker-ldap-account-manager/upstream/lam/templates/lib/100_jquery-3.3.1.js:2645-2687 | the seeded and the unseeded path both return what the run without caches returns, for all groups; for careful ones that is the seeded list, or the full scan whatever the ids |
| Engine.Engine.TestElement | TODO/ldap/docker-ldap-account-manager/upstream/lam/templates/lib/100_jquery-3.3.1.js:1709-1880 | each simple test decides what the selector notation says of the element, except that `:nth-last-child` goes by the position that the first test below the same parent has left, or makes that first test itself; an attribute test holds exactly if the value is as Selectors Level 3, section 6.3, says of the operator |
| Engine.Engine.EndOfSiblings | TODO/ldap/docker-ldap-account-manager/upstream/lam/templates/lib/100_jquery-3.3.1.js:1775-1792 | `:first-`, `:last-`, `:only-child` and their of-type forms hold exactly at position 1 from the asked end or ends |
| AttributeTests.AttrMeaning | TODO/ldap/docker-ldap-account-manager/upstream/lam/templates/lib/100_jquery-3.3.1.js:1728-1748 | for every value, operator and check: `^=` holds exactly if some rest follows the check, `$=` if something precedes it, `*=` if both may, none of them for an empty check; the dash operator if the value is the check or goes on with a dash; `~=` with a check without white space if it is one of the words of the value, whatever white space is between them |
| AttributeTests.WordIsStandardExactly | TODO/ldap/docker-ldap-account-manager/upstream/lam/templates/lib/100_jquery-3.3.1.js:1743-1746 | `~=` agrees with Selectors Level 3, section 6.3.1, on all values if and only if the check is a word, or has in it a white space character other than a blank or two in a row |
| Engine.Engine.SeekForward | TODO/ldap/docker-ldap-account-manager/upstream/lam/templates/lib/100_jquery-3.3.1.js:1794-1826 | the resumed or restarted scan for `:nth-child` ends with the 1-based position of the element among its element siblings, whatever index this or an earlier run left on the parent |
| Engine.Engine.SeekFromEnd | TODO/ldap/docker-ldap-account-manager/upstream/lam/templates/lib/100_jquery-3.3.1.js:1828-1871 | the scans for `:nth-last-child` and the of-type forms end with the position from the asked end; the one for `:nth-last-child` begins at the element itself, and afterwards every element sibling holds its position as counted to the element if it stands before it, and to the last child otherwise |
| LastPositions.AnsweredExactly | TODO/ldap/docker-ldap-account-manager/upstream/lam/templates/lib/100_jquery-3.3.1.js:1827-1871 | within a run the position answered for an element is right if and only if no later sibling of it was the first below their parent to be tested with `:nth-last-child` |
| LastPositions.TestSettled | TODO/ldap/docker-ldap-account-manager/upstream/lam/templates/lib/100_jquery-3.3.1.js:1827-1871 | a test of an element, once made, is answered alike for the rest of the run |
| Outcomes.Settled | TODO/ldap/docker-ldap-account-manager/upstream/lam/templates/lib/100_jquery-3.3.1.js:2208-2313 | for every closure: after all that it tested has been tested, whatever else has been since, it answers as it did and tests nothing new |
| SafeOrder.TestOnPath | TODO/ldap/docker-ldap-account-manager/upstream/lam/templates/lib/100_jquery-3.3.1.js:1827-1880 | while one element is matched, tests made a fixed number of places before its path to the root are right, and leave everything ready for more |
| SafeOrder.NextSubject | TODO/ldap/docker-ldap-account-manager/upstream/lam/templates/lib/100_jquery-3.3.1.js:2467-2520 | elements in document order: whatever earlier ones have had tested that many places before their paths, the next one finds everything ready |
| SafeOrder.SafeMatch | TODO/ldap/docker-ldap-account-manager/upstream/lam/templates/lib/100_jquery-3.3.1.js:2208-2313 | a closure that tests only there gives its plain meaning, and leaves everything ready |
| SafeOrder.SafeScan | TODO/ldap/docker-ldap-account-manager/upstream/lam/templates/lib/100_jquery-3.3.1.js:2467-2576 | so over elements in document order the run keeps just the elements that the closures accept |
| SafeOrder.PlainOutcome | TODO/ldap/docker-ldap-account-manager/upstream/lam/templates/lib/100_jquery-3.3.1.js:2272-2285 | a closure without tests of remembered positions gives its plain meaning whatever has been tested, and tests nothing |
| CarefulSelectors.CarefulClosure | TODO/ldap/docker-ldap-account-manager/upstream/lam/templates/lib/100_jquery-3.3.1.js:2409-2465 | if every compound with a `:nth-last-child` test is followed by the same number of `+`, and no `~`, up to the end of its run of sibling combinators, the compiled closure tests that many places before the path to the root only |
| CarefulSelectors.ClosureAlike | TODO/ldap/docker-ldap-account-manager/upstream/lam/templates/lib/100_jquery-3.3.1.js:2409-2465 | what is compiled is the same but for names, whatever the counter stands at |
| QueryRuns.QueryRunIsFullScan | TODO/ldap/docker-ldap-account-manager/upstream/lam/templates/lib/100_jquery-3.3.1.js:2617-2687 | without caches, with unique ids and careful groups, the leading-id reduction, the seeding and the scan together give the full scan |
| MisleadingOrder.FirstTestMisleads | TODO/ldap/docker-ldap-account-manager/upstream/lam/templates/lib/100_jquery-3.3.1.js:1827-1871 | children a and b: a is at position 2 from the last and b at 1, but after a test of b the answer for a is 1 |
| MisleadingOrder.SelectsWrongly | TODO/ldap/docker-ldap-account-manager/upstream/lam/templates/lib/100_jquery-3.3.1.js:2617-2687 | on that tree, for every n, `a:nth-last-child(n) + b:nth-last-child(1)` selects b exactly when n is 2, but the engine returns b exactly when n is 1 |
| NthChild.CycleTestMeaning | TODO/ldap/docker-ldap-account-manager/upstream/lam/templates/lib/100_jquery-3.3.1.js:1873-1876 | the test on remainder and quotient holds exactly when some n >= 0 gives a*n+b equal to the position, for zero and negative a too |
| NthChild.PositionOne | TODO/ldap/docker-ldap-account-manager/upstream/lam/templates/lib/100_jquery-3.3.1.js:1775-1792 | position 1 from an end means that nothing that counts stands between the element and that end |
| NthChild.PositionIsStandard | TODO/ldap/docker-ldap-account-manager/upstream/lam/templates/lib/100_jquery-3.3.1.js:1851-1854 | the of-type forms compare names of all nodes, so the position is that of Selectors Level 3, section 6.6.5, exactly when no counted sibling is anything but an element; the plain forms always agree |
| NthChild.DoctypeIsCounted | TODO/ldap/docker-ldap-account-manager/upstream/lam/templates/lib/100_jquery-3.3.1.js:1780-1783 | a document where the agreement fails: the doctype is called like the root element, so the root is not `:first-of-type` |
| QueryPlan.SplitOff | TODO/ldap/docker-ldap-account-manager/upstream/lam/templates/lib/100_jquery-3.3.1.js:2649-2668 | a test may be taken out of the last compound and asked separately: the selector holds exactly when the rest and the test hold |
| QueryPlan.SeedingIsFullScan | TODO/ldap/docker-ldap-account-manager/upstream/lam/templates/lib/100_jquery-3.3.1.js:2645-2675 | looking up the rightmost token that can be looked up, dropping it, and filtering by the rest gives the same elements in the same order as filtering all descendants by the whole selector (for an id, if the document carries it once) |
| QueryPlan.IdSeedsNeedUniqueIds | TODO/ldap/docker-ldap-account-manager/upstream/lam/templates/lib/100_jquery-3.3.1.js:1139-1144 | seeding by an id, from a document or a fragment, is right for every selector if and only if the id is carried at most once below it |
| QueryPlan.FirstOfId | TODO/ldap/docker-ldap-account-manager/upstream/lam/templates/lib/100_jquery-3.3.1.js:1139-1144 | looking up an id that several elements carry finds the first of them in document order |
| QueryPlan.ContextReduction | TODO/ldap/docker-ldap-account-manager/upstream/lam/templates/lib/100_jquery-3.3.1.js:2629-2643 | starting from the element with a leading id finds the same elements in the same order as starting from the document |
| QueryPlan.NoLeadingId | TODO/ldap/docker-ldap-account-manager/upstream/lam/templates/lib/100_jquery-3.3.1.js:2634-2636 | without an element of the leading id nothing is selected, so returning early is right |
| QueryPlan.InnerScan | TODO/ldap/docker-ldap-account-manager/upstream/lam/templates/lib/100_jquery-3.3.1.js:2677-2684 | without a leading `+` or `~` everything selected lies inside the context, so scanning its surroundings finds nothing more |
| QueryPlan.NarrowScan | TODO/ldap/docker-ldap-account-manager/upstream/lam/templates/lib/100_jquery-3.3.1.js:2677-2684 | the scan of a larger subtree, filtered by a property that implies being inside the context, is the scan of the context in the same order |
| ScanRange.ScanFindsAll | TODO/ldap/docker-ldap-account-manager/upstream/lam/templates/lib/100_jquery-3.3.1.js:2677-2684 | the scan contains an element if and only if the selector selects it (with the document for context, among the elements of the document), unless the context stands directly under a fragment with an element after it and a group begins with `+` or `~` |
| ScanRange.ScanFindsAllExactly | TODO/ldap/docker-ldap-account-manager/upstream/lam/templates/lib/100_jquery-3.3.1.js:2677-2684 | for a given context this holds for all selectors if and only if the context does not stand so |
| ScanRange.FragmentSiblingMissed | TODO/ldap/docker-ldap-account-manager/upstream/lam/templates/lib/100_jquery-3.3.1.js:2677-2684 | a fragment with two elements: from the first one `+ *` selects the second, and the scan does not have it |
| NthArgument.ArgumentReadExactly | TODO/ldap/docker-ldap-account-manager/upstream/lam/templates/lib/100_jquery-3.3.1.js:1646-1676 | every argument in the an+b notation, with any signs, digits and blanks, is read as the two numbers it means, if and only if a keyword is in lower case: in capitals `even` and `odd` are matched but read as 0n+0 |
| NthArgument.ShownIsRead | TODO/ldap/docker-ldap-account-manager/upstream/lam/templates/lib/100_jquery-3.3.1.js:1646-1676 | for any a and b, the notation of an+b is read back as a and b |
| Lexer.MatchIsLocal | TODO/ldap/docker-ldap-account-manager/upstream/lam/templates/lib/100_jquery-3.3.1.js:566-601 | a match is decided by its own text: put in front of any other text that does not prolong it, it is matched again with the same extent (identifiers with escapes, quoted values, attributes, an+b arguments in parentheses, combinators) |
| Lexer.MatchFits | TODO/ldap/docker-ldap-account-manager/upstream/lam/templates/lib/100_jquery-3.3.1.js:566-601 | matches are as long as possible: whatever the tokenizer finds behind one does not prolong it |
| Lexer.OnlyOneKind | TODO/ldap/docker-ldap-account-manager/upstream/lam/templates/lib/100_jquery-3.3.1.js:2168-2180 | at most one expression matches at any place, so the order in which the filters are tried does not matter |
| Tokenizer.Tokenize | TODO/ldap/docker-ldap-account-manager/upstream/lam/templates/lib/100_jquery-3.3.1.js:2131-2196 | the loop, with its trailing comma that is never consumed, ends on every text and computes the groups that the lemmas below are about, or reports the error |
| Tokenizer.ToSelector | TODO/ldap/docker-ldap-account-manager/upstream/lam/templates/lib/100_jquery-3.3.1.js:2198-2206 | the printed text is the concatenation of the token texts |
| Tokenizer.AcceptedIsSpelled | TODO/ldap/docker-ldap-account-manager/upstream/lam/templates/lib/100_jquery-3.3.1.js:2131-2206 | every accepted selector is the concatenation in order of the printed groups, with exactly what the comma expression consumes between two of them, and every group is non-empty and well-formed |
| Tokenizer.TokenizePrintInverse | TODO/ldap/docker-ldap-account-manager/upstream/lam/templates/lib/100_jquery-3.3.1.js:2131-2206 | a text is read as one group if and only if the group is non-empty and well-formed and the text is its printed form: tokenizing and printing undo each other |
| Tokenizer.PrintNamesTokens | TODO/ldap/docker-ldap-account-manager/upstream/lam/templates/lib/100_jquery-3.3.1.js:2578-2604 | two well-formed groups with one printed text are the same tokens, so the text is a sound key for compiled selectors |
| Tokenizer.SplicedTextIsRead | TODO/ldap/docker-ldap-account-manager/upstream/lam/templates/lib/100_jquery-3.3.1.js:2661-2668 | with the seed token spliced out the rest prints to a text that reads as just the rest, so compiling the spliced tokens under that text stores the right closure |
| Tokenizer.LeadingTokenCut | TODO/ldap/docker-ldap-account-manager/upstream/lam/templates/lib/100_jquery-3.3.1.js:2642-2642 | cutting the text of the leading token off the selector leaves a text that reads as the remaining tokens |
| SelectorCache.Cache.Store | TODO/ldap/docker-ldap-account-manager/upstream/lam/templates/lib/100_jquery-3.3.1.js:854-867 | what is stored under a text is what it reads as; the newest 50 entries are kept, listed once each, if and only if the text was not stored before (or was just the oldest entry of a full cache) |
| SelectorCache.TokenizeCached | TODO/ldap/docker-ldap-account-manager/upstream/lam/templates/lib/100_jquery-3.3.1.js:2131-2195 | whatever the cache holds, the cached tokenizer gives what the uncached one gives |
| SelectorCache.CompileCached | TODO/ldap/docker-ldap-account-manager/upstream/lam/templates/lib/100_jquery-3.3.1.js:2578-2604 | with tokens that the text reads as, a hit brings back just these tokens, compiled earlier |
| SelectorCache.TakeSeed | TODO/ldap/docker-ldap-account-manager/upstream/lam/templates/lib/100_jquery-3.3.1.js:2645-2672 | after the seed token is spliced out and the rest printed, the text reads as exactly the remaining tokens |
| SelectorCache.RightmostTakenOut | TODO/ldap/docker-ldap-account-manager/upstream/lam/templates/lib/100_jquery-3.3.1.js:2647-2672 | the token that is spliced out is the rightmost one that can be looked up, if there is one behind the last combinator |
| SelectorCache.SelectText | TODO/ldap/docker-ldap-account-manager/upstream/lam/templates/lib/100_jquery-3.3.1.js:2617-2686 | through cutting off a leading id, splicing out the seed and printing the rest, whatever earlier queries left in both caches, what is compiled and run is exactly what remains to be matched |
| SortOrder.SiblingCheck | TODO/ldap/docker-ldap-account-manager/upstream/lam/templates/lib/100_jquery-3.3.1.js:918-938 | a is found before b exactly when they are siblings in that order; a missing node sorts as an ancestor does |
| SortOrder.AncestorList | TODO/ldap/docker-ldap-account-manager/upstream/lam/templates/lib/100_jquery-3.3.1.js:1445-1452 | the list built by putting each parent in front is the path from the root |
| SortOrder.Compare | TODO/ldap/docker-ldap-account-manager/upstream/lam/templates/lib/100_jquery-3.3.1.js:1416-1468 | two nodes of one tree compare as they stand in tree order, except that the root of a tree other than the document comes after its own descendants; nodes of the document sort before all others |
| SortOrder.Fork | TODO/ldap/docker-ldap-account-manager/upstream/lam/templates/lib/100_jquery-3.3.1.js:1454-1461 | where two ancestor paths part decides which node comes first in tree order |
| SortOrder.DocumentOrderIsTotal | TODO/ldap/docker-ldap-account-manager/upstream/lam/templates/lib/100_jquery-3.3.1.js:1416-1468 | within the document the order is strict and total: irreflexive, transitive, and one of any two nodes comes first |
| SortOrder.ComparedIsOrdered | TODO/ldap/docker-ldap-account-manager/upstream/lam/templates/lib/100_jquery-3.3.1.js:1416-1468 | a list of document nodes in which every earlier element compares at or before every later one is in document order |
| SortOrder.UniqueSort | TODO/ldap/docker-ldap-account-manager/upstream/lam/templates/lib/100_jquery-3.3.1.js:1548-1575 | whatever order the sort came to, also with detached nodes: no element is lost; once a repeat was met, none is left twice if and only if equal ones came to stand together; and what was sorted in document order is left strictly so |
| DocumentOrder.PreorderMembers | TODO/ldap/docker-ldap-account-manager/upstream/lam/templates/lib/100_jquery-3.3.1.js:1416-1468 | the tree order of a subtree lists exactly the node and its descendants |
| DocumentOrder.EarlierSubtreeFirst | TODO/ldap/docker-ldap-account-manager/upstream/lam/templates/lib/100_jquery-3.3.1.js:1458-1461 | everything below an earlier sibling comes before everything below a later one |
| DocumentOrder.AncestorFirst | TODO/ldap/docker-ldap-account-manager/upstream/lam/templates/lib/100_jquery-3.3.1.js:1458-1461 | an ancestor comes before its descendants |
| Callbacks.StepKeeps | TODO/ldap/docker-ldap-account-manager/upstream/lam/templates/lib/100_jquery-3.3.1.js:3254-3398 | every command, issued by whichever callback is running, keeps the invariant: the list behind `firingIndex` is exactly what the pass still has to call, no pass calls an entry twice or out of order, and every finished pass missed nothing that stayed listed |
| Callbacks.RemoveOneMeaning | TODO/ldap/docker-ldap-account-manager/upstream/lam/templates/lib/100_jquery-3.3.1.js:3334-3346 | removing a callback in the middle of a pass takes its occurrences out of the called and the pending part, and changes neither otherwise |
| Callbacks.RemovedStaysSilent | TODO/ldap/docker-ldap-account-manager/upstream/lam/templates/lib/100_jquery-3.3.1.js:3334-3346 | an addition that is off the list is never called again, in any run |
| Callbacks.RemovalIsFinal | TODO/ldap/docker-ldap-account-manager/upstream/lam/templates/lib/100_jquery-3.3.1.js:3334-3346 | after a removal, in or out of a pass, every addition made so far of a removed callback is off the list, and never called again in any run, even if the callback is added anew |
| Callbacks.RunInOrder | TODO/ldap/docker-ldap-account-manager/upstream/lam/templates/lib/100_jquery-3.3.1.js:3266-3280 | passes start and finish in the order in which their arguments were queued |
| Callbacks.NestedFiresRunInOrder | TODO/ldap/docker-ldap-account-manager/upstream/lam/templates/lib/100_jquery-3.3.1.js:3254-3280 | on a repeatable list nested fires run later, first in first out, with their own arguments, and none is lost |
| Callbacks.EveryAdditionCalledOnce | TODO/ldap/docker-ldap-account-manager/upstream/lam/templates/lib/100_jquery-3.3.1.js:3254-3331 | on a "once memory" list every addition, before, during or after the first fire, is called exactly once, in order of addition and with the arguments of the first fire, and later fires add nothing |
| OwedCalls.ReturnPays | TODO/ldap/docker-ldap-account-manager/upstream/lam/templates/lib/100_jquery-3.3.1.js:3263-3280 | on every list, whatever its options: a return makes the first call that is owed by the pass under way and the queued ones, and if none is owed the list comes to rest |
| OwedCalls.ReturnsPayAll | TODO/ldap/docker-ldap-account-manager/upstream/lam/templates/lib/100_jquery-3.3.1.js:3263-3280 | if the callbacks only return, after as many returns all that is owed has been called, in order, and the list is at rest |
| OwedCalls.FireOwes | TODO/ldap/docker-ldap-account-manager/upstream/lam/templates/lib/100_jquery-3.3.1.js:3392-3402 | a fire adds to what is owed just one call of each listed callback, in order, with its arguments |
| OwedCalls.AddReplays | TODO/ldap/docker-ldap-account-manager/upstream/lam/templates/lib/100_jquery-3.3.1.js:3303-3331 | what is added to a list at rest that remembers arguments is called at once with these, and nothing else is |
| OwedCalls.AddWhileFiring | TODO/ldap/docker-ldap-account-manager/upstream/lam/templates/lib/100_jquery-3.3.1.js:3303-3331 | what is added while the list fires is owed by this pass and by every queued one, behind the others |
| OwedCalls.AddWaits | TODO/ldap/docker-ldap-account-manager/upstream/lam/templates/lib/100_jquery-3.3.1.js:3303-3331 | what is added to a list that remembers nothing is owed nothing yet |
| OwedCalls.RemoveOwes | TODO/ldap/docker-ldap-account-manager/upstream/lam/templates/lib/100_jquery-3.3.1.js:3334-3346 | a removal takes just the calls of the removed callback out of what is owed |
| OwedCalls.LockOwes | TODO/ldap/docker-ldap-account-manager/upstream/lam/templates/lib/100_jquery-3.3.1.js:3380-3386 | a lock leaves the rest of the pass under way and drops the queued ones |
| OwedCalls.DisabledIsSilent | TODO/ldap/docker-ldap-account-manager/upstream/lam/templates/lib/100_jquery-3.3.1.js:3368-3372 | after disable the list calls nothing and takes nothing, in any run |
| OwedCalls.LockedEarlyIsSilent | TODO/ldap/docker-ldap-account-manager/upstream/lam/templates/lib/100_jquery-3.3.1.js:3380-3386 | nor does a list that is locked while it is at rest and remembers nothing |
| OwedCalls.UniqueListsOnce | TODO/ldap/docker-ldap-account-manager/upstream/lam/templates/lib/100_jquery-3.3.1.js:3315-3317 | with the option `unique` no callback is listed twice, after any run |
| CallbackMemory.LateAdditionsAreCalled | TODO/ldap/docker-ldap-account-manager/upstream/lam/templates/lib/100_jquery-3.3.1.js:3254-3331 | after any run of a repeatable list with memory that has been fired and is at rest, it remembers the last fire of the whole history; what is added then is called at once, in order, with those arguments, and nothing else is; before the first fire nothing is called |
| CallbackMemory.LockedRun | TODO/ldap/docker-ldap-account-manager/upstream/lam/templates/lib/100_jquery-3.3.1.js:3254-3331 | whatever happens to a locked list, it makes calls with the arguments it remembers only |
| CallbackMemory.OnceCallsWithFirst | TODO/ldap/docker-ldap-account-manager/upstream/lam/templates/lib/100_jquery-3.3.1.js:3257-3258 | with the option `once` every call of every run has the arguments of the first fire |
| CallbackList.SpliceAll | TODO/ldap/docker-ldap-account-manager/upstream/lam/templates/lib/100_jquery-3.3.1.js:3336-3344 | the search-and-splice loop with its moving index removes every occurrence and leaves `firingIndex` on the last kept entry it covered |
| CallbackList.CallbackList.Resume | TODO/ldap/docker-ldap-account-manager/upstream/lam/templates/lib/100_jquery-3.3.1.js:3266-3300 | the loop of fire(), taken on after a callback returns, is the step of the machine |
| CallbackList.CallbackList.AddAll | TODO/ldap/docker-ldap-account-manager/upstream/lam/templates/lib/100_jquery-3.3.1.js:3303-3331 | add, with its replay of remembered arguments, is the step of the machine (what that calls: OwedCalls.AddReplays, AddWhileFiring and AddWaits) |
| CallbackList.CallbackList.RemoveAll | TODO/ldap/docker-ldap-account-manager/upstream/lam/templates/lib/100_jquery-3.3.1.js:3334-3346 | remove is the step of the machine |
| CallbackList.CallbackList.Fire | TODO/ldap/docker-ldap-account-manager/upstream/lam/templates/lib/100_jquery-3.3.1.js:3392-3402 | fireWith is the step of the machine, nested or not |
| Deferred.FirstSettle | TODO/ldap/docker-ldap-account-manager/upstream/lam/templates/lib/100_jquery-3.3.1.js:3693-3729 | the first resolve or reject sets the state, disables the other list and locks progress before any user callback runs |
| Deferred.LaterSettlementsIgnored | TODO/ldap/docker-ldap-account-manager/upstream/lam/templates/lib/100_jquery-3.3.1.js:3693-3744 | once settled, a resolve, reject or notify, from a callback or from outside, changes nothing |
| Deferred.RunReaches | TODO/ldap/docker-ldap-account-manager/upstream/lam/templates/lib/100_jquery-3.3.1.js:3462-3756 | over every run the state is what the first settlement made it, with the additions of both kinds accounted for |
| Deferred.SettlesOnce | TODO/ldap/docker-ldap-account-manager/upstream/lam/templates/lib/100_jquery-3.3.1.js:3692-3744 | pending until the first resolve or reject, then final; the callbacks of that outcome are called once each, in order, with the values of that settlement, and those of the other outcome never; that each is called in the end is DeferredRuns.EveryCallbackIsCalled |
| DeferredRuns.ReturnPaysTop | TODO/ldap/docker-ldap-account-manager/upstream/lam/templates/lib/100_jquery-3.3.1.js:3263-3280 | the callback on top returns: its list makes the first call that it owes, or owes none and leaves the stack, and no other list changes |
| DeferredRuns.NestedRunsOnTop | TODO/ldap/docker-ldap-account-manager/upstream/lam/templates/lib/100_jquery-3.3.1.js:3462-3756 | a list that begins to fire runs on top of those that are firing, so its callbacks return first; nothing else comes onto the stack |
| DeferredRuns.EveryCallbackIsCalled | TODO/ldap/docker-ldap-account-manager/upstream/lam/templates/lib/100_jquery-3.3.1.js:3692-3744 | after any history, if the callbacks only return from then on, so many returns later none runs, and all callbacks of the settled outcome have been called, once and in order, with the values of the settlement, and none of the other |
| DeferredRuns.LateProgressIsCalled | TODO/ldap/docker-ldap-account-manager/upstream/lam/templates/lib/100_jquery-3.3.1.js:3462-3756 | while pending, after any history: a progress callback added after a notification, while none runs, is called at once with the last notification; before the first notification nothing is called |
| DeferredRuns.ProgressEndsWithSettlement | TODO/ldap/docker-ldap-account-manager/upstream/lam/templates/lib/100_jquery-3.3.1.js:3714-3722 | after the settlement, whatever happens, progress callbacks are called only with the notification that was remembered then |
| DeferredObject.DeferredObject.Settle | TODO/ldap/docker-ldap-account-manager/upstream/lam/templates/lib/100_jquery-3.3.1.js:3693-3744 | resolveWith and rejectWith of the object with three lists are the step of the machine |
| DeferredObject.DeferredObject.Perform | TODO/ldap/docker-ldap-account-manager/upstream/lam/templates/lib/100_jquery-3.3.1.js:3698-3722 | the callbacks that the constructor puts in front do what the machine says |
| When.RunIsRight | TODO/ldap/docker-ldap-account-manager/upstream/lam/templates/lib/100_jquery-3.3.1.js:3759-3805 | after any history: the countdown, the values in their positions, and the state of the master fit what has settled |
| When.MasterSettlesLast | TODO/ldap/docker-ldap-account-manager/upstream/lam/templates/lib/100_jquery-3.3.1.js:3759-3805 | in any order of settlement `remaining` counts the inputs not fulfilled; the master is resolved exactly when all are, with value k in position k, and rejected with the first refusal; its callbacks get exactly those arguments |
| When.WhenCall.UpdateInput | TODO/ldap/docker-ldap-account-manager/upstream/lam/templates/lib/100_jquery-3.3.1.js:3777-3783 | the update function of an input is the step of the machine |
| Uploads.DequeueMeaning | TODO/ldap/docker-ldap-account-manager/upstream/lam/templates/lib/130_jquery-fineuploader-3.0.js:1596-1606 | taking a queued id out moves the ones behind it up in order, and starts the longest-waiting one exactly when a slot came free |
| Uploads.CancelKeepsExactly | TODO/ldap/docker-ldap-account-manager/upstream/lam/templates/lib/130_jquery-fineuploader-3.0.js:540-542 | cancelling keeps the slots, the counter and the accounting right if and only if the file is queued, or stored while the queue is empty (or gone already) |
| Uploads.CancelStoredLosesAnUpload | TODO/ldap/docker-ldap-account-manager/upstream/lam/templates/lib/130_jquery-fineuploader-3.0.js:1596-1606 | a run where it fails: cancelling a stored file splices index -1, and an upload under way is dropped from every list |
| Uploads.ManualRetryKeepsExactly | TODO/ldap/docker-ldap-account-manager/upstream/lam/templates/lib/130_jquery-fineuploader-3.0.js:531-539 | a manual retry keeps everything right if and only if the file is neither queued nor stored (or the retry is refused) |
| Uploads.ManualRetryStoredUploadsTwice | TODO/ldap/docker-ldap-account-manager/upstream/lam/templates/lib/130_jquery-fineuploader-3.0.js:692-712 | a run where it fails: a stored file that is retried is uploaded at once, and again when the stored files are |
| Uploads.RespondKeeps | TODO/ldap/docker-ldap-account-manager/upstream/lam/templates/lib/130_jquery-fineuploader-3.0.js:1930-1965 | a response, with or without an automatic retry, keeps everything right |
| Uploads.UploadsStayInOrder | TODO/ldap/docker-ldap-account-manager/upstream/lam/templates/lib/130_jquery-fineuploader-3.0.js:521-763 | in every reachable state the ids with a request are exactly the first min(maxConnections, length) of the queue, `_filesInProgress` is the queue length, every file is queued, stored or finished and only one of them, and over the whole history no file has been retried automatically more often than `maxAutoAttempts` says, nor is it about to be |
| Uploads.RunCounts | TODO/ldap/docker-ldap-account-manager/upstream/lam/templates/lib/130_jquery-fineuploader-3.0.js:674-690 | over every run the counter of a file has gone up by the number of its automatic retries, and by nothing else |
| Uploads.StoredInOrder | TODO/ldap/docker-ldap-account-manager/upstream/lam/templates/lib/130_jquery-fineuploader-3.0.js:521-527 | after any lawful history the stored files are those accepted since the last upload or clearing, without the cancelled ones, in the order in which they were submitted; uploading them puts them into the line in that order |
| UploadObjects.FineUploaderBasic.AutoRetry | TODO/ldap/docker-ldap-account-manager/upstream/lam/templates/lib/130_jquery-fineuploader-3.0.js:674-678 | an automatic retry is counted; from an orderly state, with its timer set, the file keeps its slot and has its request again |
| Uploads.ServedInOrder | TODO/ldap/docker-ldap-account-manager/upstream/lam/templates/lib/130_jquery-fineuploader-3.0.js:1527-1606 | over every lawful run, the files started and behind them those that wait are the arrivals of the whole history in their order, without exactly those that were cancelled before they started; with none of these, files start precisely in the order of arrival |
| Uploads.FirstComeFirstServed | TODO/ldap/docker-ldap-account-manager/upstream/lam/templates/lib/130_jquery-fineuploader-3.0.js:1527-1606 | at one step: files start from the head of the line only, arrivals join at its end, and only a cancelled file leaves it |
| UploadObjects.UploadHandlerXhr.Dequeue | TODO/ldap/docker-ldap-account-manager/upstream/lam/templates/lib/130_jquery-fineuploader-3.0.js:1596-1606 | for a queued id: it leaves, the others keep their order, the longest-waiting file starts if and only if a slot came free, and if the requests were those of the slots but for this id they are those of the slots again |
| UploadObjects.FineUploaderBasic.Response | TODO/ldap/docker-ldap-account-manager/upstream/lam/templates/lib/130_jquery-fineuploader-3.0.js:1930-1965 | from an orderly state, a response to a request in flight leads to an orderly state; it ends the upload and starts the longest-waiting file, or the file keeps its slot and its timer is set, exactly as success, the refusal of retries and the count of attempts say |
| UploadObjects.FineUploaderBasic.Cancel | TODO/ldap/docker-ldap-account-manager/upstream/lam/templates/lib/130_jquery-fineuploader-3.0.js:649-659 | an orderly state stays orderly if and only if the file is queued, stored while the queue is empty, or gone; a queued file leaves its place, the counter goes down by one, and the longest-waiting file starts if a slot came free |
| UploadObjects.FineUploaderBasic.UploadFile | TODO/ldap/docker-ldap-account-manager/upstream/lam/templates/lib/130_jquery-fineuploader-3.0.js:750-766 | a chosen file keeps an orderly state orderly; it joins the end of the line if it is accepted and uploads are automatic, and otherwise the line stays as it is |
| UploadObjects.FineUploaderBasic.UploadStoredFiles | TODO/ldap/docker-ldap-account-manager/upstream/lam/templates/lib/130_jquery-fineuploader-3.0.js:521-527 | the loop keeps an orderly state orderly, leaves nothing stored, and lets the stored files join the line in their order |
| UploadObjects.FineUploaderBasic.ManualRetry | TODO/ldap/docker-ldap-account-manager/upstream/lam/templates/lib/130_jquery-fineuploader-3.0.js:692-712 | an orderly state stays orderly if and only if the retry is refused or the file is neither queued nor stored; the file goes to the end of the queue and starts if a slot is free |
| DynamicSelect.SelectField.InitSelect | TODO/ldap/docker-ldap-account-manager/upstream/lam/templates/lib/500_lam.js:1183-1202 | the first window is set up if and only if there are at least 3000 options; the loop fails on a missing one |
| DynamicSelect.SelectField.Scrolled | TODO/ldap/docker-ldap-account-manager/upstream/lam/templates/lib/500_lam.js:1228-1245 | after any scroll event the window has slid by the 200 options, or by what there is, at the end that the user scrolled to, and otherwise stayed; it is a run of 3000 consecutive options with right indexes, and, in a box at most 2790 rows high, the row on view is where the user scrolled to |
| DynamicSelect.SelectField.LoadNextOptions | TODO/ldap/docker-ldap-account-manager/upstream/lam/templates/lib/500_lam.js:1254-1276 | loading at the end drops as many rows as it adds and moves the scroll position by just their height: the viewed row stays if and only if the new position is in range |
| DynamicSelect.SelectField.LoadPreviousOptions | TODO/ldap/docker-ldap-account-manager/upstream/lam/templates/lib/500_lam.js:1285-1307 | loading at the beginning drops as many rows as it adds and moves the scroll position by just their height: the viewed row stays if and only if the new position is in range |
| DynamicSelect.EveryOptionIsReached | TODO/ldap/docker-ldap-account-manager/upstream/lam/templates/lib/500_lam.js:1183-1307 | in a box of fewer than 2780 rows every option of a list of any length can be brought into view from any state by some scrolling, the scroll events that loading sets off included |
| DynamicSelect.EchoIsQuiet | TODO/ldap/docker-ldap-account-manager/upstream/lam/templates/lib/500_lam.js:1228-1245 | in such a box the scroll event that loading sets off loads nothing |
| RbacResources.GenerateRules | TODO/jwt-to-rbac/pkg/rbachandler/rbac_handler.go:308-324 | the rules of a group are those of the first configured group of that name |
| RbacResources.GithubRoleParser | TODO/jwt-to-rbac/pkg/rbachandler/rbac_handler.go:339-353 | the list is computed in the order of the groups (its members: RbacResources.TeamsListed) |
| RbacResources.TeamsListed | TODO/jwt-to-rbac/pkg/rbachandler/rbac_handler.go:339-353 | a name is in the list exactly if some group has the form org:team, with or without more parts, and the name is the team if org is the own organisation, and org-team otherwise |
| RbacResources.AccountNameMeaning | TODO/jwt-to-rbac/pkg/rbachandler/rbac_handler.go:363-366 | an account named after an address has neither `@` nor a dot in its name, and the other characters unchanged |
| RbacResources.BindingNamesDiffer | TODO/jwt-to-rbac/pkg/rbachandler/rbac_handler.go:388-394 | the bindings of an account to different roles have different names |
| RbacResources.GenerateRbacResources | TODO/jwt-to-rbac/pkg/rbachandler/rbac_handler.go:355-408 | the resources are a function of user, configuration and namespaces; every group with a role, built in or configured, is bound to it; the roles to be created are just those of the groups with rules of their own; each binding names a role that is built in or created with it; an unknown connector is refused |
| RbacHandler.RBACHandler.CreateServiceAccount | TODO/jwt-to-rbac/pkg/rbachandler/rbac_handler.go:212-233 | an existing account with the label is left alone, any other existing one is an error, and only the named account is ever added |
| RbacHandler.RBACHandler.CreateClusterRole | TODO/jwt-to-rbac/pkg/rbachandler/rbac_handler.go:277-306 | an existing role with the label is left alone, any other existing one is an error, and only the named role is ever added |
| RbacHandler.RBACHandler.CreateClusterRoleBinding | TODO/jwt-to-rbac/pkg/rbachandler/rbac_handler.go:235-275 | a binding is created only with a live labelled account as its owner, and only under the asked name |
| RbacHandler.RBACHandler.CreateRBAC | TODO/jwt-to-rbac/pkg/rbachandler/rbac_handler.go:410-441 | at every API call, even of a run that fails: nothing that existed is changed, only what the user is to have is added, and each binding created names a built-in or an existing labelled role and is owned by an existing labelled account; a success leaves all that the user is to have in place, and a cluster that has it is not changed; if every call is answered, the call succeeds exactly if the connector is known and no unlabelled object has a wanted name |
| RbacHandler.RBACHandler.CreateTwice | TODO/jwt-to-rbac/pkg/rbachandler/rbac_handler.go:410-441 | after a successful call a second one with the same arguments leaves the cluster as it was, whether or not it succeeds |
| RbacHandler.RBACHandler.RemoveServiceAccount | TODO/jwt-to-rbac/pkg/rbachandler/rbac_handler.go:500-510 | deleting an account removes it and the bindings it owns, and nothing else |
| SuffixCreation.ClosedUpward | TODO/ldap/docker-ldap-account-manager/upstream/lam/templates/initsuff.php:62-155 | an entry that is there has every superior up to the top of its naming context |
| SuffixCreation.Directory.CollectSubsuffixes | TODO/ldap/docker-ldap-account-manager/upstream/lam/templates/initsuff.php:98-111 | the list runs from the suffix itself to its first part that is not an ou |
| SuffixCreation.Directory.AddChain | TODO/ldap/docker-ldap-account-manager/upstream/lam/templates/initsuff.php:112-148 | superiors are added before inferiors, nothing outside the chain is added or changed, and unless the suffix is recorded as failed the whole chain is there; a reliable server makes it succeed exactly if the top of the chain is there or may be added |
| SuffixCreation.Directory.AddSuffix | TODO/ldap/docker-ldap-account-manager/upstream/lam/templates/initsuff.php:62-155 | one suffix: unless it is recorded as failed it is there afterwards, and only entries of its chain were added, each after its superior and with the attribute that its name has; on a server that accepts what the add rule allows and shows what is there, it is there afterwards exactly if it, or the top of its chain, was there or could be added, and is recorded as failed otherwise |
| SuffixCreation.Directory.AddSuffixes | TODO/ldap/docker-ldap-account-manager/upstream/lam/templates/initsuff.php:62-155 | all suffixes asked for, of any depth: the directory stays closed, old entries stay as they were, every entry added over the whole list comes after its superior, and every suffix not recorded as failed is there; on a reliable server every suffix that could be created at the start is there at the end |
| Luhn.LuhnSum | TODO/ldap/docker-ldap-account-manager/upstream/lam/templates/lib/140_jquery.validationEngine-2.6.2.js:1323-1333 | the digits of the built string sum up to the checksum of ISO/IEC 7812-1, Annex B, for digit strings of any length |
| Luhn.CreditCard | TODO/ldap/docker-ldap-account-manager/upstream/lam/templates/lib/140_jquery.validationEngine-2.6.2.js:1316-1336 | a field is accepted exactly when, without spaces and dashes, it is 14 to 16 digits, not all of them zero, with a checksum divisible by ten |
| Luhn.SeparatorsDropOut | TODO/ldap/docker-ldap-account-manager/upstream/lam/templates/lib/140_jquery.validationEngine-2.6.2.js:1317-1318 | spaces and dashes make no difference wherever they stand, and nothing else is taken out |
| Luhn.DigitCounts | TODO/ldap/docker-ldap-account-manager/upstream/lam/templates/lib/140_jquery.validationEngine-2.6.2.js:1323-1333 | changing a digit at an even distance from the end, such as the last one, changes the checksum by the difference of the digits, and at an odd distance by that of the digit sums of the doubles |
| Luhn.SingleErrorDetected | TODO/ldap/docker-ldap-account-manager/upstream/lam/templates/lib/140_jquery.validationEngine-2.6.2.js:1323-1333 | changing any one digit of a valid number makes it invalid |
| Luhn.SwapDetectedExactly | TODO/ldap/docker-ldap-account-manager/upstream/lam/templates/lib/140_jquery.validationEngine-2.6.2.js:1323-1333 | swapping two adjacent digits of a valid number goes unnoticed if and only if they are equal or are 0 and 9 |

## Left out

Selector engine:

- Browser parts: native `querySelectorAll`, `matches` and `compareDocumentPosition`, feature tests, XML documents, the `legend` case of combinators, several contexts at once.
- Positional filters and `:not`, `:has` and the other pseudo-classes: `setMatcher`, nested runs with fractional run numbers, and the PSEUDO expression; a selector text that has one is reported as malformed by the model.
- Unescaping of identifiers, folding of element names to lower case, and boolean attributes: the names in the model's tree are as the tests compare them, and an element has at most one value for an attribute.
- The step from token texts to what tokens stand for, except for the an+b argument (`NthArgument`, with unbounded numbers): `Tokenizer` works on the texts, `Selectors.Token` on the meanings.
- SelectorCache.CompileCached: a compiled selector is represented by the token groups it was compiled from.
- SortOrder.UniqueSort: the engine's own sort, and whether its comparator met an element twice, are parameters.
- Tokenizer.Tokenize: the mode that only reports the length of the rest.
- Engine.Engine.Select: with repeated ids the result is the seeded list, which then can differ from the full scan (QueryPlan.LoneId). For groups that are not careful the result is stated exactly (QueryRuns.QueryRun), but not when it is the full scan: that depends on the numbers and on the tree, so the exact condition for plain answers is given for each test (LastPositions.AnsweredExactly).

Callback lists, deferreds and `when`:

- `then`, its second set of lists and its timing; an exception in a callback, which leaves a list firing; `empty()` during a pass; `stopOnFalse`.
- Deferred.SettlesOnce: the internal callbacks that disable, lock and fire the lists used by `then` are not among the three modelled.
- When.MasterSettlesLast: fewer than two inputs, and inputs that call their callbacks more than once.

Uploads:

- Iframe uploads, requests and their progress, validation, drag and drop, `reset()`, `cancelAll()`, and a limit of zero connections.

Others:

- DynamicSelect.SelectField.Scrolled: the row stays in place when the new scroll position is one that the browser allows; its bounds on the box height say when that is.
- HTTP handlers, OIDC, client setup, tokens and listing of jwt-to-rbac; the server collects owned bindings at once.
- RbacResources.GenerateRbacResources: logging; wanted namespaces are those of the caller.
- SuffixCreation.Directory.AddSuffix: escaping inside distinguished names, which the original splits at every comma.
- HTML, sessions and configuration pages of LAM, and the other field validators.
