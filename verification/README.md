# Verified models of LawVM's inventory, diff, migration and publication scripts

LawVM keeps its honesty checks in scripts: static scans that ask whether an apply function may
decline without a witness, whether replay can reach an LLM client, whether a module is dead; a
word diff that shows readers what differs; a migration of archived artifacts; tables and
censuses that are published. This project states those algorithms in Dafny, in the form the
scripts give them (loops over dictionaries stay loops, visitors and accumulators stay classes,
recursive checks stay functions), and proves what their results mean.

`dafny verify dfyconfig.toml` checks everything. One module per script, plus small shared ones:

- `ApplyDeclines`, `DeclineExecutions`: the apply-decline scan, and a trace semantics for the
  statements it reads (conditions are free, every statement may raise).
- `DeclinePaths`: an exact decision, on the text of a block, of which executions it has.
- `DeclineWalks`, `DeclineVerdicts`, `DeclineDominance`, `DeclineGaps`: what the walk records, how
  its verdicts relate to executions, what stands between the two, and bodies on which they part.
  Ordinary code has no try, no loop whose else block always exits, and no dead code; code is tame
  around a return when it has no with, try or match, no nested function that holds the return or
  that the scan credits, and only loops that do not hold the return and are not left by break or
  continue.
- `WordDiff`: the table of longest-common-subsequence lengths, the greedy walk, the escaping.
- `ImportGraph`, `ModuleRoles`: ancestor edges, breadth-first search, module classification,
  determinism firewall.
- `TypedCarriers`: the nodes a scope owns and the assignment fixpoint.
- `ConsolidatedLocators`, `ConsolidatedBackfill`: locator parsing and the archive migration
  with its dry run.
- `StatuteKeys`, `AmendmentChains`: sort keys, later touches, section amendment chains.
- `CrossBillCollisions`: conflict grouping over bills.
- `AdjudicationInventory`: the call visitor and the wrapper/direct comparison.
- `EstonianCensus`: statute stock and citation counts.
- `Occupancy`: whole runs of the occupancy state machine.
- `Ordering`, `Text`, `Numerals`, `Sequences`, `Sums`: orders, sorting, cutting strings,
  numerals as strings, sums.

Where code and documentation disagree, the model follows the code:

- `_return_is_witnessed` is documented as a witness on every path to the return. The code also
  credits a guard that falls through and a nested function that is never called
  (`GuardIsCredited`, `NestedDefIsCredited`).
- `_block_always_exits` is documented never to make the scan drop a real witness. It does, for a
  loop whose else block exits and for the else block of a try (`LoopElseDropsWitness`,
  `TryElseDropsWitness`). `DeclineDominance.VerdictAgainstPaths` says, statement by statement, when
  either claim holds.
- The docstring of `proofs/z3_occupancy.py` lists four transitions, its table has five.
- The documentation of `_is_llm_client` exempts a package `__init__` by a second test; a name
  that has the dotted prefix always passes that test (`ModuleRoles.ClientIsFenced`), and the
  package itself never has the prefix.

## Model

| member | source | states |
|---|---|---|
| ApplyDeclines.DeclineScan.Walk | scripts/inventory_apply_declines.py:449-489 | the closure appends exactly the records of every `return state` of the block, in source order, nested blocks included and nested function bodies excluded |
| DeclineExecutions.AlwaysExitsNeverFalls | scripts/inventory_apply_declines.py:298-319 | no execution whatsoever, loops, try, with and match included, falls out of the bottom of a block called always-exiting |
| DeclineVerdicts.ExitsIsExact | scripts/inventory_apply_declines.py:298-319 | in ordinary code a block is called always-exiting exactly when no execution falls out of its bottom |
| DeclineVerdicts.ExitsIsText | scripts/inventory_apply_declines.py:298-319 | over the whole language a block is called always-exiting exactly when every way from branch to branch of the ifs that end its blocks leads to a return, raise, break or continue |
| DeclineExecutions.DirectWitnessDominates | scripts/inventory_apply_declines.py:365-383 | a witness statement standing before the return's ancestor in any enclosing block has been executed whenever any execution reaches the return, with loops, break, continue, try, with and match |
| DeclineDominance.DirectIsCredited | scripts/inventory_apply_declines.py:322-383 | such a direct witness always makes the verdict witnessed, in the whole statement language |
| DeclineWalks.WalkRecordsReturns | scripts/inventory_apply_declines.py:449-489 | every `return state` outside nested functions is recorded, whatever it is nested in (match cases included), and nothing else is |
| DeclineWalks.RecordOrder | scripts/inventory_apply_declines.py:486-489 | the records of a statement are those of its body, its else block, its finally block and its handlers in this order; of a match, those of its cases |
| DeclineWalks.HeldIsTrail | scripts/inventory_apply_declines.py:386-392 | a block counts as holding a return exactly when some way leads down to it, each block one of the statement before it, nested functions, handlers and cases included |
| DeclineWalks.CreditIsPath | scripts/inventory_apply_declines.py:278-348 | over the whole language a statement is credited if and only if a path of statements leads from it to a witness, each in a block of the one before that does not always exit (body, else, finally, handler), and none above the witness a match |
| DeclineWalks.ScanVerdict | scripts/inventory_apply_declines.py:357-383 | every record the walk of a function body makes carries the verdict read block by block from the outside in |
| DeclineWalks.VerdictIsOnTrail | scripts/inventory_apply_declines.py:357-383 | on the way down from the function body to a recorded return, the verdict is witnessed if and only if some block has a credited statement before the one taken |
| DeclinePaths.PossibleIsExact | scripts/inventory_apply_declines.py:298-383 | over the whole statement language (loops, with, try, match, nested functions, dead code): whether a block can be left in a given way or a return inside it reached, and whether silently or after emitting, is decided exactly by the block's text |
| DeclineVerdicts.PathsAreText | scripts/inventory_apply_declines.py:361-374 | for every body and return: a silent path, an emitting path, and a witness on every path exist exactly when the text shows it |
| DeclineVerdicts.VerdictHasPath | scripts/inventory_apply_declines.py:298-383 | in ordinary code, loops, with and match included, an unwitnessed record has a silent path, and one with a credit from outside nested functions before its return a path that emits |
| DeclineVerdicts.VerdictIsExact | scripts/inventory_apply_declines.py:298-383 | on tame ordinary code a recorded return is witnessed if and only if some execution emits a witness and then reaches it; unwitnessed means silent on every path |
| DeclineDominance.DominatedIsWitnessed | scripts/inventory_apply_declines.py:309-383 | in ordinary code nothing is overlooked: all paths to a return emit if and only if some credited statement before it cannot be passed silently, and then it is witnessed |
| DeclineDominance.WayIsPossible | scripts/inventory_apply_declines.py:375-383 | over the whole language, for a return that stands once in a body: it can be reached in a manner (at all, silently, after emitting) if and only if, block by block down to it, the statements before its ancestor can be passed and the blocks around it entered together in that manner |
| DeclineDominance.VerdictAgainstPaths | scripts/inventory_apply_declines.py:309-383 | for every recorded return of every body: all paths emit if and only if a statement before it, credited or not, cannot be passed silently or a block around it not be entered silently; a credited such statement makes the verdict; so an unwitnessed return has a silent path if and only if the scan overlooks nothing of the kind |
| DeclineDominance.UncreditedIsPassed | scripts/inventory_apply_declines.py:322-348 | a statement the scan does not credit can be passed silently, unless it always exits or control has to go through code after an exit, a try, or a loop that cannot be passed silently |
| DeclineDominance.LoopPassed | scripts/inventory_apply_declines.py:309-316 | a loop can be passed silently if and only if its else block can, or its body be left silently by break |
| DeclineDominance.OverlookedIsCaused | scripts/inventory_apply_declines.py:309-383 | everything the scan overlooks has one of those causes, or stands before a block of a try around the return |
| DeclineGaps.ReturnAfter | scripts/inventory_apply_declines.py:375-383 | for a return behind any one statement: the verdict is whether the statement is credited, every path emits if and only if the statement cannot be fallen through silently, some path emits if and only if it can be fallen through emitting |
| DeclineGaps.WitnessInBlock | scripts/inventory_apply_declines.py:339-347 | a return behind a statement with a witness in any block that does not always exit is recorded witnessed, whatever the statement, except a match |
| DeclineGaps.WithIsCredited | scripts/inventory_apply_declines.py:286-347 | a return behind a `with` whose body is a witness is recorded witnessed |
| DeclineGaps.TryIsCredited | scripts/inventory_apply_declines.py:286-347 | the same for a witness in the body, a handler, the else block or the finally block of a `try` |
| DeclineGaps.LoopElseDropsWitness | scripts/inventory_apply_declines.py:309-348 | a loop that emits and breaks, with an else block that returns: every path to what follows emits, and the return there is unwitnessed |
| DeclineGaps.TryElseDropsWitness | scripts/inventory_apply_declines.py:375-383 | `try: witness / except: raise / else: return state`: every path to the return emits, and it is unwitnessed |
| DeclineGaps.GuardIsCredited | scripts/inventory_apply_declines.py:330-348 | a guard that falls through is credited although the path around it is silent |
| DeclineGaps.ContinueHidesWitness | scripts/inventory_apply_declines.py:313-316 | a loop body ending in `continue` counts as exiting: the return behind it is unwitnessed although some path emits first |
| DeclineGaps.MatchHidesWitness | scripts/inventory_apply_declines.py:337-340 | a witness in the only case of a preceding `match` is not credited although some path emits first |
| DeclineGaps.NestedDefIsCredited | scripts/inventory_apply_declines.py:286-295 | a witness in a nested function body is credited although no path to the return emits |
| WordDiff.FillTable | scripts/build_standalone_findings.py:374-380 | every cell of the table filled in place holds the length of a longest common subsequence of the two remaining word lists; the 16-bit cells lose nothing |
| WordDiff.Walk | scripts/build_standalone_findings.py:381-393 | both word lists come out complete and in order, the unmarked words are the same sequence on both sides, no common subsequence is longer, and a word of the first list is kept if and only if some longest common subsequence continues with it |
| WordDiff.EscIsOnePass | scripts/build_standalone_findings.py:357-360 | the four replacement passes do what one pass over the characters does |
| WordDiff.GlyphsOfEsc | scripts/build_standalone_findings.py:357-360 | decoding the entities of an escaped text gives the text back, whatever HTML follows it and whatever span it stands in |
| WordDiff.EscIsInjective | scripts/build_standalone_findings.py:357-360 | two texts with the same escaped form are the same |
| WordDiff.EscIsPlain | scripts/build_standalone_findings.py:357-360 | an escaped text holds no angle bracket and no quote |
| WordDiff.JoinShows | scripts/build_standalone_findings.py:381-394 | a joined side, read tag by tag and entity by entity, shows every word in its place: a marked one in a span of its class, a kept one in none |
| WordDiff.JoinReadsBack | scripts/build_standalone_findings.py:381-394 | its text is the concatenation of its words, the text in spans of the class that of the marked ones, the text outside spans that of the others |
| WordDiff.Diff | scripts/build_standalone_findings.py:365-394 | each side's HTML reads back as its input text; within 400 words the diff is optimal and the text highlighted as source-only or finlex-only is exactly the marked words, and above it nothing is highlighted |
| ImportGraph.AddAncestorEdges | scripts/inventory_module_roles.py:261-266 | every module keeps its imports and gains exactly its existing enclosing packages |
| ImportGraph.Bfs | scripts/inventory_module_roles.py:440-449 | the search ends, and `seen` is exactly what import paths of any length reach from the roots; it is closed under edges |
| ImportGraph.ReachIsLeast | scripts/inventory_module_roles.py:440-449 | what is reachable lies in every set that holds the roots and is closed under edges |
| ModuleRoles.PackagesReached | scripts/inventory_module_roles.py:261-266 | over the built graph with its registry edges, production reach and full reach hold the existing enclosing packages of everything they hold |
| ModuleRoles.Scan | scripts/inventory_module_roles.py:619-694 | every module gets exactly one role, and it is the one its reachability facts determine |
| ModuleRoles.ScanModuleRoles | scripts/inventory_module_roles.py:592-694 | with the declared allowlist and registries, ancestor edges added first: every module gets the role its reachability facts determine, and every package follows the modules inside it |
| ModuleRoles.ReachMeans | scripts/inventory_module_roles.py:629-670 | a module is marked reachable if and only if a chain of imports and of owner entries of a present registry leads to it from an entrypoint; full reach allows owner entries of a present drill registry too |
| ModuleRoles.DrillsReached | scripts/inventory_module_roles.py:636-643 | a drill owner is in full reach wherever the drill registry is |
| ModuleRoles.KindsMean | scripts/inventory_module_roles.py:662-677 | what each importer kind says about the graph: production and registry split production reach, the others follow from the registries and from whether anybody imports the module |
| ModuleRoles.LiveIsReachability | scripts/inventory_module_roles.py:656-694 | a module is live if and only if it is production-reachable, optional, or a drill target in full reach |
| ModuleRoles.DeadMeans | scripts/inventory_module_roles.py:656-694 | a module is dead if and only if nobody imports it and neither production, nor the allowlist, nor a reached drill owner entry holds it |
| ModuleRoles.DeadInFullReach | scripts/inventory_module_roles.py:619-694 | the exact condition for a dead module inside full reach: an owner nobody imports, below a registry that only full reach holds |
| ModuleRoles.NoDeadInFullReach | scripts/inventory_module_roles.py:619-694 | if the observation registry is production-reachable, no dead module is in full reach |
| ModuleRoles.MoreImportsMonotone | scripts/inventory_module_roles.py:619-694 | adding import edges takes no module out of live and puts none into dead |
| ModuleRoles.ClientIsFenced | scripts/inventory_module_roles.py:512-527 | a module is a client exactly when its name lies under one of the two fenced packages |
| ModuleRoles.FirewallEdges | scripts/inventory_module_roles.py:530-546 | the offending list holds exactly the cone's edges into clients, each once, in increasing order |
| ModuleRoles.Firewall | scripts/inventory_module_roles.py:567-590 | missing roots are reported, the cone is what the present roots reach, and when no present root is a client the offending list is empty if and only if no import path of any length from a root reaches a client |
| ModuleRoles.FirewallIsExact | scripts/inventory_module_roles.py:530-578 | without assumption on the roots: no client is reachable if and only if no root is one and no reachable module imports one |
| ModuleRoles.FirewallForDeclaredRoots | scripts/inventory_module_roles.py:490-578 | for the declared roots the edge check alone decides the path property |
| TypedCarriers.NodesOwnedByScope | scripts/inventory_architecture_smells.py:122-149 | the stack loop ends and returns exactly the nodes of the scope outside nested functions and lambdas, each as often as it occurs |
| TypedCarriers.Fixpoint | scripts/inventory_architecture_smells.py:182-192 | the loop ends with the least set holding the seeds and closed under typed assignments |
| TypedCarriers.TypedCarrierNames | scripts/inventory_architecture_smells.py:122-192 | the result is the least set of names that holds the typed parameters and, for the assignments below the scope and outside nested functions and lambdas, the names annotated with the carrier and the targets of a value that calls it or is a name in the set |
| TypedCarriers.OrderDoesNotMatter | scripts/inventory_architecture_smells.py:182-192 | two orders of the same assignments have the same result |
| TypedCarriers.TypedIffDerivable | scripts/inventory_architecture_smells.py:86-107 | a name is typed exactly when a chain of copies leads to it from a seed or from a `CompileRecord` call |
| ConsolidatedLocators.BuildParses | src/lawvm/finland/consolidated_artifacts.py:24-27 | well-formed parts are read back from their locator |
| ConsolidatedLocators.ParseWellFormed | src/lawvm/finland/consolidated_artifacts.py:24-27 | only well-formed parts come out of a locator, so parsing is exactly the inverse of building |
| ConsolidatedLocators.ParsedIsSpelled | src/lawvm/finland/consolidated_artifacts.py:24-27 | a locator is parsed into the parts that spell it, character by character, and into no others |
| ConsolidatedLocators.CanonicalKeepsParts | scripts/backfill_finlex_consolidated_versions.py:68-77 | the canonical form is read back as the same statute, language and file with the tag for its version if and only if the tag holds no slash |
| ConsolidatedLocators.RootNamesMain | scripts/backfill_finlex_consolidated_versions.py:52-58 | a family root lies in the legacy namespace and names exactly one main file |
| ConsolidatedLocators.CanonicalIsNotLegacy | scripts/backfill_finlex_consolidated_versions.py:68-77 | a canonical locator lies outside the legacy namespace |
| ConsolidatedLocators.LegacyMainIs | scripts/backfill_finlex_consolidated_versions.py:52-65 | a legacy main file is one spelled in the legacy namespace with the name main.xml, and its language is the one spelled |
| ConsolidatedLocators.CanonicalIsSpelled | scripts/backfill_finlex_consolidated_versions.py:68-77 | the locators of the legacy namespace and no others have a canonical form; it is spelled with the same statute, language and file, and the tag |
| ConsolidatedBackfill.Archive.Locators | scripts/backfill_finlex_consolidated_versions.py:81 | a pattern with `%` and `_` lists exactly the stored locators it matches without regard to ASCII case, each once |
| ConsolidatedLocators.FamilyIsUnder | scripts/backfill_finlex_consolidated_versions.py:121 | the pattern of a family misses nothing below its root, whatever wildcards the root holds |
| ConsolidatedLocators.UnderIsFolded | scripts/backfill_finlex_consolidated_versions.py:121 | for a root without wildcards the pattern lists exactly what starts with the root and a slash up to ASCII case |
| ConsolidatedLocators.ListsOwnOnly | scripts/backfill_finlex_consolidated_versions.py:121 | a root's pattern lists nothing but its own files if and only if the root holds no wildcard and no ASCII letter |
| ConsolidatedLocators.OtherCaseIsUnder | scripts/backfill_finlex_consolidated_versions.py:121-130 | the files of a root that differs only in case are listed too, and so migrated with the wrong family's tag |
| ConsolidatedBackfill.CollectVersions | scripts/backfill_finlex_consolidated_versions.py:97-117 | the versions are those of exactly the families whose main file yields a tag, whatever the listing order; unreadable and tagless main files are counted apart |
| ConsolidatedBackfill.VersionsMean | scripts/backfill_finlex_consolidated_versions.py:97-117 | a family is versioned if and only if its main.xml is stored in the legacy namespace with a payload in which the tag for the language of its locator is found, and that is its version |
| ConsolidatedBackfill.Run | scripts/backfill_finlex_consolidated_versions.py:87-152 | the archive after a real run is the migrated one and after a dry run the old one; all seven counters |
| ConsolidatedBackfill.MigrationKeeps | scripts/backfill_finlex_consolidated_versions.py:126-141 | no locator present before changes or disappears |
| ConsolidatedBackfill.MigrationOrigin | scripts/backfill_finlex_consolidated_versions.py:124-141 | every added locator holds the payload of the first examined legacy locator with that canonical form and a payload |
| ConsolidatedBackfill.MigrationStores | scripts/backfill_finlex_consolidated_versions.py:124-141 | every examined locator with a canonical form and a payload has that form stored afterwards |
| ConsolidatedBackfill.MigrationAddsCanonical | scripts/backfill_finlex_consolidated_versions.py:3-9 | what is added lies in the canonical namespace |
| ConsolidatedBackfill.SecondRunStoresNothing | scripts/backfill_finlex_consolidated_versions.py:87-152 | a second real run finds the same families, tags and locators, leaves the archive as it is and counts nothing as backfilled |
| ConsolidatedBackfill.SecondRunCounts | scripts/backfill_finlex_consolidated_versions.py:124-135 | it skips the examined locators whose canonical form is stored, and its errors there are those with neither form nor payload; with all payloads present it skips every locator that has a canonical form and has no such error |
| ConsolidatedBackfill.DryRunCounts | scripts/backfill_finlex_consolidated_versions.py:124-140 | a dry run backfills the examined locators whose canonical form is absent and that have a payload, skips those whose canonical form is stored, and counts those with neither as errors |
| ConsolidatedBackfill.RealRunCounts | scripts/backfill_finlex_consolidated_versions.py:126-143 | a real run counts their canonical forms, each once, and adds exactly those |
| ConsolidatedBackfill.RealRunSkips | scripts/backfill_finlex_consolidated_versions.py:124-135 | a real run skips the items whose canonical form is stored or is that of an earlier item with a payload, and counts as errors those of which neither holds and that have no payload |
| ConsolidatedBackfill.DryRunBoundsRealRun | scripts/backfill_finlex_consolidated_versions.py:121-146 | the dry count is at least the real one, with equality if and only if no two such locators share a canonical form |
| Numerals.FieldOrder | scripts/build_publication_db.py:357-360 | how two zero-filled numerals of any width with a colon behind them compare as strings: the narrower one with the leading digits of the wider |
| StatuteKeys.OrdersAgree | scripts/build_publication_db.py:357-359 | key order and (year, number, suffix) order agree if and only if the years, and for equal years the numbers, have one width or the narrower is below the leading digits of the wider |
| StatuteKeys.KeyOrderIsIdOrder | scripts/build_publication_db.py:349-360 | for years below 10^4 and numbers below 10^10 the string order of the keys of raw ids is the order of (year, number, suffix), and equal keys mean equal ids |
| StatuteKeys.IrregularSortsLast | scripts/build_publication_db.py:357-360 | a numeric id sorts before one of its year with an unreadable number, unless its number is 9999999999, where the suffix is compared with the text |
| StatuteKeys.SharedKey | scripts/build_publication_db.py:357-360 | with that number two different ids can have the same key |
| StatuteKeys.UnsortableSortsLast | scripts/build_publication_db.py:352-356 | ids without a year sort behind all others |
| StatuteKeys.RangeIsNeeded | scripts/build_publication_db.py:357-359 | the key of 2000/10000000000 sorts before that of 2000/9999999999 |
| StatuteKeys.PlainId | scripts/build_publication_db.py:349-359 | year/number with a letter suffix, with or without what follows a minus sign, is read as written |
| StatuteKeys.ReadIdIs | scripts/build_publication_db.py:349-360 | how any text is read: without the spaces around it and up to its first minus sign, as year and number with a letter suffix, as a year with an unreadable number, or as neither, by its shape alone |
| StatuteKeys.VersionIs | scripts/build_publication_db.py:334-340 | how any amendment id is read as a version: the two integers around the first slash up to the first minus sign, (0, 0) when there are none |
| AmendmentChains.SectionRows | scripts/build_publication_db.py:2213-2220 | every error row gets its later touches, and is marked the last touch exactly when there are none |
| AmendmentChains.LaterTouchesAre | scripts/build_publication_db.py:2214-2219 | the later touches are the supporting amendments blamed for the section that are strictly newer than the blamed one |
| AmendmentChains.LaterTouchesInOrder | scripts/build_publication_db.py:2214-2219 | they are listed in bundle order, each supporting amendment of the kind once |
| AmendmentChains.Publish | scripts/build_publication_db.py:2242-2599 | for any bundles, several of one statute included: exactly the sections with touches get a chain, in increasing order, and it is the one the bundles determine |
| AmendmentChains.ChainOverBundles | scripts/build_publication_db.py:2242-2599 | over any bundles a chain is duplicate-free, numbered and in version order, holds exactly the amendments by which some bundle of the statute touches the section, and flags exactly those newer than a blame of a bundle that has them |
| AmendmentChains.RowDetails | scripts/build_publication_db.py:2242-2597 | over any bundles a row carries the title of the first supporting amendment of the first bundle that touches the section under its id, and is the blame source if and only if its amendment is the last blame of the section |
| AmendmentChains.FlagsFormSuffix | scripts/build_publication_db.py:2242-2597 | over any bundles the flagged rows form a suffix if and only if whatever comes after an amendment newer than a blame of its bundle is newer than a blame of a bundle of its own |
| AmendmentChains.FlagsWithoutSuffixHappens | scripts/build_publication_db.py:2242-2597 | two bundles of one statute whose flagged rows are no suffix |
| AmendmentChains.OnlyBundleChain | scripts/build_publication_db.py:2242-2262 | the chain of a section whose statute has one bundle is the one of that bundle |
| AmendmentChains.ChainIsOrdered | scripts/build_publication_db.py:2579-2599 | a chain is duplicate-free, holds exactly the amendments that touch the section, is numbered 1..n and never goes back in version order |
| AmendmentChains.ChainTitles | scripts/build_publication_db.py:2582-2597 | a row carries the title of the first supporting amendment with its id that touches the section, through deduplication and sorting |
| AmendmentChains.LaterTouchIsNewer | scripts/build_publication_db.py:2214-2262 | the rows flagged later-touch are those strictly newer than the blame of some error row of the section, and they form a suffix of the chain |
| AmendmentChains.OneRowPerSection | scripts/build_publication_db.py:2213-2599 | with one blamed amendment the flagged rows are exactly those strictly newer than it, none exactly when the error row is marked the last touch, and the blame mark is on that amendment's row |
| AmendmentChains.NoFlagIsLastTouch | scripts/build_publication_db.py:2213-2597 | with any number of error rows: no row is flagged if and only if every blamed error row of the section is marked the last touch |
| AmendmentChains.FlagsAgainstRecordedBlame | scripts/build_publication_db.py:2254-2597 | with several error rows the flags mean newer than the recorded blame if and only if no touching amendment is newer than some row's blame without being newer than the recorded one |
| AmendmentChains.FlagOlderThanBlameHappens | scripts/build_publication_db.py:2254-2597 | with amendments of any three years in a row, two error rows blamed on the first and the last and a touch between them: it is flagged though older than the recorded blame |
| CrossBillCollisions.FirstLabelIs | scripts/he_draft_materialize_report.py:160-172 | the label is that of the first part of the form `section:<label>`, and empty exactly when there is none |
| CrossBillCollisions.SectionLabelIs | scripts/he_draft_materialize_report.py:160-172 | the label of a provision is read off the provision cut at every slash |
| CrossBillCollisions.Collisions | scripts/he_draft_materialize_report.py:314-354 | a key is reported if and only if two different bills touch it, once, in strictly increasing order, with one touch for each of its operations bill by bill and branch by branch |
| CrossBillCollisions.BillPaths | scripts/he_draft_materialize_report.py:132-138 | the paths of the touches, each once, by first appearance |
| AdjudicationInventory.AdjudicationVisitor.Visit | scripts/inventory_replay_adjudications.py:84-102 | a visit leaves the function stack as it was and adds exactly the sites of the relevant calls below the node, each with its innermost function |
| AdjudicationInventory.BuildInventory | scripts/inventory_replay_adjudications.py:116-157 | a min_count that is not positive is rejected; otherwise exactly the selected files, each with exactly the kinds that pass all filters |
| AdjudicationInventory.InventorySites | scripts/inventory_replay_adjudications.py:48-113 | under a kind an inventory lists, by line, exactly the sites of the relevant calls anywhere in the file whose first keyword named kind has this literal, each with the name of the innermost function around it |
| AdjudicationInventory.KeepsMeans | scripts/inventory_replay_adjudications.py:24-156 | what passes the filters: a replay name, a name holding the given text, a count of at least the given one |
| AdjudicationInventory.DirectKindsAreWrapperKinds | scripts/inventory_replay_adjudications.py:135-157 | under every filter combination the direct kinds are wrapper kinds, with no more sites |
| AdjudicationInventory.SurfaceAddsUp | scripts/inventory_replay_adjudications.py:196-214 | wrapper kinds are direct plus wrapper-only kinds; wrapper sites are at least direct plus wrapper-only sites, with equality if and only if no directly found kind has a further wrapper site |
| AdjudicationInventory.SurfaceComparison | scripts/inventory_replay_adjudications.py:170-215 | one row for every selected file, with the kind and site counts of the two filtered inventories, adding up so, and its names exactly the wrapper-only kinds in order |
| EstonianCensus.Deduplicate | scripts/ee_census.py:424-439 | every group with a consolidated text is represented by the first of its newest acts |
| EstonianCensus.StatuteStock | scripts/ee_census.py:405-460 | for every year of the range the stock is the represented statutes enacted by then minus those expired by then; the range runs from the first to the last year any of them names, and nothing is returned exactly when there are none |
| EstonianCensus.CitationNetwork | scripts/ee_census.py:471-507 | in-degree counts the acts that cite a target; in-degrees and degree times frequency both add up to the edge total |
| EstonianCensus.ActCounts | scripts/ee_census.py:486-505 | the in-degree is the number of acts citing the target, the citing acts those that cite anything |
| EstonianCensus.EdgeCounts | scripts/ee_census.py:486-505 | the edge total is the number of pairs of an act and a target it cites, the out-degree of an identifier the number of those from acts that carry it |
| Occupancy.TwinsAgree | proofs/z3_occupancy.py:45-71 | the table and the nested conditional give the same state after every run, from every state |
| Occupancy.InvalidIsAbsorbing | proofs/z3_occupancy.py:45-54 | no action leaves the invalid state, and no run returns to ABSENT |
| Occupancy.Balance | proofs/z3_occupancy.py:45-54 | on every valid run insertions plus reenactments minus repeals is 1 exactly in SUBSTANTIVE and 0 otherwise |
| Occupancy.ValidHistories | proofs/z3_occupancy.py:45-71 | a run from ABSENT stays valid if and only if it is empty or INSERT REPLACE* (REPEAL (INSERT or REENACT) REPLACE*)* REPEAL?, and it is live exactly on those without the last repeal |

## Left out

- The kernel in `src/lawvm` (replay, tree operations, timelines, corpus stores) apart from the locator functions the migration calls.
- Python parsing: the scans start from a built tree or edge map. Registry owner resolution, relative imports, entrypoint discovery and the replay-coverage dimension are inputs or absent.
- Apply declines: which functions are op handlers, waiver lines and the display fields of a record; class bodies inside functions; `except*`. An execution is a finite run in which every statement and condition may raise.
- DeclineVerdicts.VerdictIsExact: the verdict is the emitting paths only on tame ordinary code, because the scan is one-sided elsewhere, as `DeclineGaps` shows for a `continue`, a match, a loop's else block, a try's else block and a nested function; for all other code `VerdictAgainstPaths` tells the statements apart.
- DeclineVerdicts.VerdictHasPath: ordinary code, for the same reason.
- `split(/(\s+)/)` and UTF-16: the word lists are taken as given, with the text as their concatenation.
- The import edges found by walking syntax trees; the module graph starts before the ancestor pass.
- Annotation parsing: whether a parameter or an annotated assignment names `CompileRecord` is part of the input.
- The XML version extraction is a function parameter of the migration; the archive's `locators` is taken to be SQL LIKE; locators with line breaks are not modelled; storage classes, history and the read-only flag of the archive are absent.
- Digits and letters beyond ASCII (and the Finnish letters of the id pattern) in sort keys and locators.
- AmendmentChains.LaterTouchIsNewer: one bundle; `FlagsFormSuffix` has the condition for several of one statute. The filters that drop error rows before later touches are computed are not modelled.
- Publication scores, taxonomy branches, HTML, Markdown, JSON and SQLite output, progress printing, process pools, network access: reading one branch settles them or they have no logic.
- The fitted power-law exponent and the list of most cited acts of the citation network.
- `proofs/z3_claim_precedence.py`, `proofs/z3_temporal_selector.py` and the solver calls of `proofs/z3_occupancy.py`: single-step facts.
