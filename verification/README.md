# The memsom store, its importer and its small cores, as a Dafny model

memsom keeps an agent's memory as nodes in a table, each with an integrity label, a
confidentiality level and a record of what it came from. This project models the parts
of it on which that record rests, and proves what they keep:

* the derivation DAG (`Dag`, `DagRuns`): insert, derive and revoke as atomic steps on a
  mutable store, the recursive query as a worklist (`Closure`), and, over every run of
  those steps, that labels flatten to the roots and that no live node stands on a dead
  ancestor;
* what reads the DAG (`Provenance`): the roots `blame` answers with, and the selection of
  the training export;
* the reconciling importer (`MemoryTree`, `Healing`, `Filing`, `Importer`, `Literals`) over
  the same store, with what one import guarantees (`Reconciled`) and writes (`Stamped`), when a second one is a
  noop (`Reimport`, and `ImportAll` for files and index together), the value history that
  facts are read from, over runs of both imports and of DAG steps (`Facts`), and runs on
  which an import leaves the store short of what one would expect (`Orphans`);
* the managed block of CLAUDE.md (`ManagedBlock`, `Upsert`), the hook merger (`HookMerge`,
  `HookSettings`), the vault watcher (`Watcher`), the inline-code mask and the channel of
  a vault note (`VaultNote`), the cached tuning file (`TuningCache`), the path fence
  (`PathText`, `SafeJoin`) and BM25 in its two forms (`Bm25`).

`Base`, `Ordering`, `Lex` and `Frontmatter` hold what these share. Programs that change
state are classes with the source's fields (`Dag.Store`, `MemoryTree.MemoryDir`,
`HookMerge.HookList`, `HookSettings.SettingsFile`, `Watcher.VaultWatcher`,
`TuningCache.Tuning`) or methods with the source's loops. Each is proved against a
function of the old state, and the results are lemmas about those functions.

## What the proofs turned up

Some properties the code or its documentation suggests hold only under a condition. The
code is modelled as it is, the condition is proved, and for most an input is given on which
the property fails.

* Both halves of an import tombstone a node alone, so what was derived from it lives on over
  a dead parent. The file import keeps the DAG's liveness invariant if and only if no changed
  file's node has a live child that does not also descend from a swept node
  (`Reimport.ImportKeepsLivenessIff`), the literal import if and only if every live child of
  a moved or removed literal's node loses its own line as well
  (`Literals.LiteralsKeepLivenessIff`). Importing a file, deriving from its node and
  importing the edited file breaks the invariant (`Orphans.EditedFileOrphansItsAnswer`).
* Confidentiality is inherited when a node is derived and not kept up afterwards. Setting a
  row's level keeps it flat if and only if the row is not derived or keeps its level, and
  every child is as confidential through this row or through another parent
  (`DagRuns.ClassifyKeepsConfIff`). A source made secret after an answer was derived from it
  leaves the answer public, and exported (`Provenance.ReclassifiedSourceLeavesItsAnswerPublic`).
* A memory file whose stem begins with `literal:` gets a reference that reads as an index
  literal's. Once the file is deleted its node stays alive, in every run exactly for such
  stems (`Facts.VanishedRowSurvivesIff`, `Orphans.DeletedLiteralStemStays`). While it is there
  the literal import tombstones its node unless a later row has the reference or a line asks
  for its content (`Literals.FileRowSurvivesIff`), so it never settles
  (`Orphans.LiteralStemNeverSettles`).
* A second `import_all` over an unchanged directory and index changes nothing if and only if
  the literal import took no present file's node, no reference without a line had several
  live nodes, and the directory has a file or the index no line of its own
  (`ImportAll.SecondImportAllIff`). Without a file the second run is refused, since the nodes
  of the lines count as live memories (`ImportAll.EmptyDirectoryIsRefusedTheSecondTime`).
* The literal import leaves one node per line, and none without a line, exactly where there
  was at most one to begin with: of several it replaces the last (`Literals.OneNodePerLineIff`).
* Filing metadata is stable under a second filing if and only if the anti-creep rule did not
  hold the file back, or the file asks for the section itself (`Filing.FilingIsStableIff`).
  A node that is not both held back and sectioned meets that whatever its file says
  (`Filing.FilingIsAFixpoint`), and every import stores only such nodes; from a stored node
  that is both, filing may change a second time (`Filing.HeldWithSectionIsNoFixpoint`) and
  never a third (`Filing.StableFromTheSecondFiling`).
* The documented order of index metadata, curated line, then the file's own frontmatter, then
  the stored node, is interrupted by a curated line without a hook: its hook is empty and not
  absent, so the chain does not run and the file's own hook is not looked at. The order holds
  if and only if no empty curated value keeps the others out so (`Stamped.ResolvedIsFiled`,
  `Stamped.HooklessLineHidesTheHook`).
* Quarantine keeps every displaced copy if and only if no two of different content share
  name and modification time (`Healing.QuarantineKeepsAllIff`, and `Healing.ClashLosesACopy`
  for three copies that do). What an occupied quarantine name held before stays exactly if
  no copy goes there or the last one that does has that content (`Healing.ShelfKeptIff`).
* Facts are typed by the importer's flattened reading but read back at the top level
  only, so a fact nested under `metadata:` is never displayed (`Facts.NestedFactIsNotRead`).
* The export's ancestor check is redundant when labels come from channels, at floors 0 and
  1 included, and is needed once a source was elevated (`Provenance.ExportChecksAreRedundant`,
  `Provenance.ElevatedSourceNeedsTheAncestorCheck`).
* With several blocks in a text, a second `upsert` is a noop exactly when the text left
  behind the block is free of markers (`Upsert.UpsertTwice`). It is not for a text whose
  two halves of a marker meet once a block between them is taken out
  (`Upsert.JoinedMarkerBreaksTheSecondUpsert`).
* The watcher's debounce holds per path: one settled note syncs the whole vault, half-written
  neighbours included (`Watcher.SyncDoesNotWaitForTheOthers`); it finds every changed note
  quiet exactly if nothing is left pending (`Watcher.SyncFindsAllQuietIff`). Its test that the
  signature still matches never decides (`Watcher.EqualityTestNeverDecides`).
* The inline-code mask agrees with section 6.1 of CommonMark exactly if, behind the first
  unmatched backtick run, no run has a later one of the same length
  (`VaultNote.AgreesWithCommonMarkIff`).
* `set_persisted` merges into what `persisted()` returned and replaces the file with the
  result. It keeps the other keys if and only if what it started from agrees, off the key,
  with what the file holds when it is replaced (`TuningCache.SetKeepsOthersIff`). Two things
  can lose another process's key: starting from the cache within a second of the last stat
  (`TuningCache.SetCanLoseAnUpdate`), and a write that comes between the read and the replace
  (`TuningCache.SetLosesAWriteBeforeTheReplace`). In a run without either no update is lost
  (`TuningCache.NoUpdateIsLost`).
* Under the root `/` the path fence accepts only parts that name nothing, since it compares
  with the root's text and a slash; under any other root its escape check never rejects
  (`SafeJoin.AcceptsExactly`, `SafeJoin.EscapeIsUnreachable`).

## Model

| member | source | states |
|---|---|---|
| Closure.RecursiveUnion | memsom/integrity/dag.py:29-31 | the recursive query terminates on every finite edge table, cycles and diamonds included, and yields exactly the reachable rows |
| Closure.FlipReaches | memsom/integrity/dag.py:29-31 | walking the edges backwards reaches a from b exactly when walking forwards reaches b from a |
| Dag.Store.InsertNode | memsom/integrity/dag.py:34-40 | a new row with the next id and nothing done to it yet, labelled 3, 2, 1 or 0 by its channel unless a label in range is given; nothing else changed |
| Dag.Store.CheckParents | memsom/integrity/dag.py:43-77 | no refusal exactly if there are parents, all known, none tombstoned, redacted, quarantined or archived; otherwise no parents, else an unknown one, else one that carries the flag named |
| Dag.Store.DeriveNode | memsom/integrity/dag.py:43-90 | under that check the new agent-derived row has the least parent label, the greatest confidentiality and an edge to each parent; a refusal leaves the store alone |
| Dag.Store.CascadeSet | memsom/integrity/dag.py:121-124 | lists exactly the rows reachable from the seed, in id order |
| Dag.Store.RevokeCascade | memsom/integrity/dag.py:127-137 | tombstones exactly the live rows reachable from the seed and returns their number |
| Dag.Store.ParentsOf | memsom/integrity/dag.py:113-118 | lists exactly the immediate parents, label descending, then id |
| DagRuns.InsertKeeps | memsom/integrity/dag.py:34-40 | an insert keeps the label and liveness invariant |
| DagRuns.DeriveKeeps | memsom/integrity/dag.py:61-90 | a derive that passes the check keeps it |
| DagRuns.RevokeKeeps | memsom/integrity/dag.py:127-137 | a revocation keeps it: what it kills it kills downward |
| DagRuns.RunsKeepInv | memsom/integrity/dag.py:34-137 | every state of every run of inserts, derives, revokes and taint marks satisfies the invariant |
| DagRuns.LabelsFlattenToRoots | memsom/integrity/dag.py:78-89 | in every reached state a row's label is the least label over its parentless ancestors |
| DagRuns.ClassifyIs | memsom/integrity/confid.py:64-99 | a known row takes a level of 0 to 3, unless it is archived and the level lower; nothing else changes |
| DagRuns.ClassifyKeepsConfIff | memsom/integrity/confid.py:64-99 | setting a row's level keeps the confidentiality of all derived rows the greatest of their parents if and only if the row has no parents or keeps its level, and every child has at least that level and gets its own from this row or from another parent |
| DagRuns.RunsKeepConf | memsom/integrity/dag.py:78-89 | over every run whose reclassifications all fit so, every derived row has the greatest confidentiality of its parents |
| DagRuns.ConfFlattensToRoots | memsom/integrity/dag.py:78-89 | and hence the greatest over its parentless ancestors |
| DagRuns.NoLiveNodeOnADeadAncestor | memsom/integrity/dag.py:61-90 | in every reached state no live node has a tombstoned ancestor at any distance |
| DagRuns.SplitDeriveBreaksLiveness | memsom/integrity/dag.py:61-63 | were check and insert two steps, a revocation in between would leave a live node on a dead parent |
| DagRuns.RevokeRowByRow | memsom/integrity/dag.py:127-137 | live reachable rows die with the date and the right reason, every other row, dead ones included, is untouched |
| DagRuns.RevocationsCommute | memsom/integrity/dag.py:127-137 | two revocations leave the same rows dead in either order and count the union once between them |
| DagRuns.RevokeIsIdempotent | memsom/integrity/dag.py:137 | a second revocation changes no row and counts zero |
| Provenance.Blame | memsom/integrity/blame.py:145-222 | the source rows a node came from, each once, label descending and then by id, each with its state, and its content exactly if it is not redacted and not above the clearance |
| Provenance.BlameFindsTheRoots | memsom/integrity/blame.py:186-222 | blame's rows are the roots of the node, short of exactly the roots inserted on the agent-derived channel |
| Provenance.LabelIsTheLeastBlamed | memsom/integrity/blame.py:145-222 | in every reached state, without such a root, a node's label is the least label blame shows |
| Provenance.AncestorIsProperDescent | memsom/integrity/blame.py:186-205 | the ancestor query and the revocation cascade are converse |
| Provenance.ExportTraining | memsom/distill/distill.py:82-148 | exactly the agent-derived rows that are public, at or over the floor, not tombstoned, redacted, quarantined or archived, with every external ancestor dead, in id order, each with its instruction, its content and its immediate parents; a refusal for a floor out of range |
| Provenance.InstructionOfAnswer | memsom/distill/distill.py:58-75 | the instruction of a record in question form is its question, stripped and cut to length |
| Provenance.InstructionOfQuestion | memsom/distill/distill.py:58-75 | the question without the white space around it, up to 200 characters |
| Provenance.InstructionOfText | memsom/distill/distill.py:58-75 | of other content the first line that is not blank, likewise |
| Provenance.BreaksAre | memsom/distill/distill.py:66-72 | the ASCII characters at which a line ends |
| Provenance.InstructionIsEmptyIff | memsom/distill/distill.py:58-75 | any other content gives an empty instruction exactly if it is blank |
| Provenance.FloorExcludesExternal | memsom/distill/distill.py:93-96 | when no external row was inserted with a label at or over a floor, a row at or over it has no external ancestor, live or dead |
| Provenance.FloorDecidesTheExport | memsom/distill/distill.py:93-133 | at such a floor the ancestor check removes nothing from the export |
| Provenance.ExternalAncestorIffLabelZero | memsom/distill/distill.py:93-96 | a live derived node has a live external ancestor exactly when its label is 0 |
| Provenance.ExportChecksAreRedundant | memsom/distill/distill.py:93-133 | the ancestor check removes nothing at floors from 1, and at floor 0 exactly what floor 1 removes |
| Provenance.ElevatedSourceNeedsTheAncestorCheck | memsom/distill/distill.py:93-96 | after an elevation the floor alone lets an externally tainted answer through |
| Provenance.ReclassifiedSourceLeavesItsAnswerPublic | memsom/integrity/confid.py:64-99 | a run of three steps that exports an answer whose one source is secret by then |
| Ordering.OrderBy | memsom/integrity/dag.py:113-124 | a listing of exactly the given ids in the order of the query |
| Ordering.ListingUnique | memsom/integrity/dag.py:113-124 | that order leaves one listing only |
| Frontmatter.StampReadBack | memsom/kernel/frontmatter.py:133-150 | a stamped key reads back with the stamped value, or absent for none, and every other top-level key as before |
| Frontmatter.StampIdempotent | memsom/kernel/frontmatter.py:133-150 | stamping the same keys twice changes nothing more |
| Frontmatter.StampHolds | memsom/kernel/frontmatter.py:133-150 | a stamped note has the old lines of all other keys, at any indentation, one line for each stamped value, and the old body |
| Frontmatter.TopLevelIs | memsom/kernel/frontmatter.py:42-57 | a key reads as its last unindented pair says, and not at all without one |
| Frontmatter.FlatReads | memsom/kernel/frontmatter.py:79-117 | one block of plain children under a bare metadata line reads as flat: the top-level line of a key wins, then the first child |
| Frontmatter.FlatFailsClosed | memsom/kernel/frontmatter.py:79-117 | an inline value, a child that is no plain pair or a second block leaves the reading as it stands |
| Frontmatter.FlatOfFlat | memsom/kernel/frontmatter.py:79-117 | without a metadata line the flat reading is the plain one |
| MemoryTree.MemoryDir.Heal | memsom/bridge/bridge_import.py:192-228 | deletes or quarantines exactly the copies that are not canonical; a dry run returns the same counts and touches nothing |
| Healing.HealLeavesOneCopyPerName | memsom/bridge/bridge_import.py:159-228 | afterwards the walked tree holds exactly the canonical copy of each name |
| Healing.HealIgnoresOtherFiles | memsom/bridge/bridge_import.py:135-153 | files outside the walk stay |
| Healing.HealKeepsTheFileList | memsom/bridge/bridge_import.py:231-247 | the importer sees the same files before and after healing, and a second healing does nothing |
| Healing.QuarantineKeepsAllIff | memsom/bridge/bridge_import.py:207-228 | quarantine keeps every copy moved into it if and only if no two with different content have the same name and modification time |
| Healing.ClashLosesACopy | memsom/bridge/bridge_import.py:207-228 | three copies of one name of which one content is lost |
| Healing.HealLosesNoContent | memsom/bridge/bridge_import.py:192-228 | under that condition every content seen is in the tree or in quarantine afterwards, whatever was in quarantine before |
| Healing.ShelfKeptIff | memsom/bridge/bridge_import.py:207-228 | what a quarantine name held before stays exactly if no copy is moved to that name, or the last one that is has the same content |
| Healing.ShelfKeptWithoutClashIff | memsom/bridge/bridge_import.py:207-228 | without a clash: exactly if every copy moved there has the same content |
| Healing.FileListIsOnePerName | memsom/bridge/bridge_import.py:231-247 | the file list is sorted, holds the canonical copy of every name of the tree once, and nothing else |
| Healing.FileListFromDisk | memsom/bridge/bridge_import.py:135-190 | from the disk: only memory files of the tree are listed, and of each name the deepest copy when all are alike, else the newest, then the deepest |
| Healing.HealCountsAre | memsom/bridge/bridge_import.py:192-228 | each displaced copy is counted once, as deleted when the copies of its name are alike and as quarantined otherwise |
| Healing.MeetIff | memsom/bridge/bridge_import.py:214-217 | two copies meet in quarantine exactly when they have the same name and modification time |
| Filing.StampedReadsBack | memsom/bridge/bridge_import.py:648-661 | the metadata stamped on a node is what the stored-metadata lookup returns |
| Filing.FilingIsStableIff | memsom/bridge/bridge_import.py:664-698 | fallback chain, withdrawal and born-unindexed holding resolve to the same metadata when run again on their own result if and only if the file was not held back, or has the section in its own frontmatter; what they leave is never both held back and sectioned |
| Filing.StableFromTheSecondFiling | memsom/bridge/bridge_import.py:664-698 | whatever was stored, a third filing resolves to what the second did |
| Filing.FilingIsAFixpoint | memsom/bridge/bridge_import.py:802-858 | from a stored node that is not both held back and sectioned, which is every node an import leaves, the first filing is already stable |
| Filing.HeldWithSectionIsNoFixpoint | memsom/bridge/bridge_import.py:681-698 | a file that is not stable: a feedback note without frontmatter whose stored node is held back and has the Feedback section |
| Stamped.ResolvedIsFiled | memsom/bridge/bridge_import.py:801-831 | title, hook and section are the curated one if not empty, else the file's own, else the stored one, if and only if no empty value of a curated line with a hook, the empty one included, keeps the others out; no section when the file withdraws itself or is held back, and then only index_pending |
| Stamped.ImportedRowIsFiled | memsom/bridge/bridge_import.py:781-905 | the one live row of a file an import wrote is stamped so from the file's flattened fields and those of the row it replaced, with its directory, all other top-level keys and the body as in the file, the channel and label of its type, and the forget columns of its predecessor |
| Stamped.HooklessLineHidesTheHook | memsom/bridge/bridge_import.py:789-807 | a curated line without a hook keeps the file's own hook out |
| Importer.LiveNodeForPath | memsom/bridge/bridge_import.py:633-645 | the live node of a file name with the highest id, or none |
| Importer.ImportFile | memsom/bridge/bridge_import.py:781-918 | one file: refused when its node is redacted, skipped when unchanged, else created or superseded, and nothing written in a dry run |
| Importer.JudgedIndependently | memsom/bridge/bridge_import.py:781-918 | a file is judged as the store stood before the run, wherever it comes in the list |
| Importer.SweepUnaffectedByFiles | memsom/bridge/bridge_import.py:906-930 | the sweep finds the same rows whether or not the files were written first |
| Importer.Sweep | memsom/bridge/bridge_import.py:912-930 | tombstones exactly the live file-backed rows whose file is not present, in id order |
| Importer.FollowUp | memsom/bridge/bridge_import.py:959-990 | per swept node: its live agent-derived descendants die, then its descendants go stale, and the number newly stale is returned |
| Importer.SweepKills | memsom/bridge/bridge_import.py:778-930 | new_ids are exactly the ids minted and dead_ids exactly the rows that died |
| Importer.ImportMemoryDir | memsom/bridge/bridge_import.py:714-995 | the counters are one function of store and directory, dry run or not; a dry run changes neither; an empty directory against a store with live memories is refused unchanged |
| Stamped.VerdictIs | memsom/bridge/bridge_import.py:858-880 | created exactly without a live row of the name, refused exactly if the newest live one is redacted, skipped exactly if it has the hash of what would be written |
| Stamped.CountersAre | memsom/bridge/bridge_import.py:745-753 | every file is counted once, as created, updated, skipped or refused, tombstoned as often as updated, and the files held out of the index are counted |
| Stamped.BornIsHeld | memsom/bridge/bridge_import.py:681-698 | held out is a feedback file of no cluster and without a curated line or a reason, filed under Feedback, that is new or was held before |
| Stamped.SweptAre | memsom/bridge/bridge_import.py:912-923 | the sweep takes live rows with a memory reference in any case, not a literal one, whose file is not there; the empty-directory guard looks at every live memory reference |
| Stamped.CascadeNamesTheFile | memsom/bridge/bridge_import.py:971-985 | the record of a derived row the follow-up kills names the first swept row above it and that row's file |
| Stamped.StaleNamesTheSource | memsom/bridge/bridge_import.py:986-990 | the mark of staleness names the file on the swept row itself and the swept row on what depends on it |
| Stamped.DeathsSayWhy | memsom/bridge/bridge_import.py:866-923 | a row an import of the files kills records the time, and whether a changed file superseded it or its file is gone |
| Stamped.LineDeathsSayWhy | memsom/bridge/bridge_import.py:357-391 | one an import of the index kills records whether its line has another content or is gone |
| Reconciled.ImportKeepsOneLivePerPath | memsom/bridge/bridge_import.py:780-930 | at most one live node per file name is kept |
| Reconciled.EveryFileHasItsNode | memsom/bridge/bridge_import.py:780-905 | every present file that was not refused has exactly one live node, with the stamped hash; a successor inherits the forget columns; a redacted node stays |
| Reconciled.LiveMemoriesHaveFiles | memsom/bridge/bridge_import.py:906-930 | right after the sweep every live row it can see, which are those without a `literal:` stem, names a present file |
| Reconciled.ImportRowFate | memsom/bridge/bridge_import.py:780-930 | an import kills exactly the superseded and the swept rows and leaves every other old row as it was |
| Reconciled.LiveFileRowsAccounted | memsom/bridge/bridge_import.py:774-930 | the old live file rows minus dead_ids plus new_ids are the new live file rows |
| Reconciled.CascadeKillsDerivedDescendants | memsom/bridge/bridge_import.py:959-985 | the follow-up kills exactly the live agent-derived descendants of swept nodes |
| Reconciled.StalenessKillsNothing | memsom/bridge/bridge_import.py:986-990 | staleness reaches every descendant of a swept node and tombstones none |
| Reimport.ImportKeepsFiled | memsom/bridge/bridge_import.py:780-930 | every import keeps the property of stored nodes under which refiling is stable |
| Reimport.ReimportIsANoop | memsom/bridge/bridge_import.py:714-995 | importing the same files and index again creates, updates, sweeps and heals nothing and leaves the store as it was, when the first run refused no redacted file |
| Reimport.MintedIsSweepableIff | memsom/bridge/bridge_import.py:877-918 | a node minted for a file is visible to the sweep if and only if its stem does not begin with `literal:` |
| Reimport.VanishedFileSurvivesIff | memsom/bridge/bridge_import.py:912-930 | a live file row whose file is gone survives the sweep exactly when its stem begins with `literal:` |
| Reimport.ImportKeepsOneHop | memsom/bridge/bridge_import.py:780-990 | an import keeps the label invariant of the DAG, and the confidentiality one |
| Reimport.ImportKeepsLivenessIff | memsom/bridge/bridge_import.py:863-872 | it keeps the liveness invariant if and only if no superseded node has a live child outside every swept node's descent |
| Literals.WantIsProper | memsom/bridge/bridge_import.py:338-343 | the wanted references are distinct literal references, one per distinct text |
| Literals.WantIs | memsom/bridge/bridge_import.py:334-343 | a line is wanted under the digest of its text with the section of the last such line, and nothing else is wanted |
| Literals.WantedInOrder | memsom/bridge/bridge_import.py:334-350 | the references are gone through in the order of their first lines |
| Literals.ContentIs | memsom/bridge/bridge_import.py:318-319 | two lines have the same note exactly if section and text are the same |
| Literals.LiveLiterals | memsom/bridge/bridge_import.py:345-347 | maps each literal reference with a live node to its last one |
| Literals.ImportLiterals | memsom/bridge/bridge_import.py:322-399 | the store after the run and the counters as functions of store and index; a dry run counts the same and writes nothing; without an index nothing is done and nothing counted |
| Literals.JudgedAlike | memsom/bridge/bridge_import.py:350-381 | each line is judged as the store stood before the run |
| Literals.OneNodePerLineIff | memsom/bridge/bridge_import.py:350-391 | a wanted line ends with exactly one live node, of its content, and any other literal reference with none, if and only if the reference had at most one to begin with |
| Literals.ImportKeepsOneLive | memsom/bridge/bridge_import.py:350-391 | at most one live node for each literal reference is kept |
| Literals.LiteralRowFate | memsom/bridge/bridge_import.py:345-391 | of the old rows, exactly the nodes whose line is gone or has another content die, with the reason, and every other one stays as it was |
| Literals.NewRowsAreLines | memsom/bridge/bridge_import.py:377-381 | every added row is live, endorsed with label 3, and holds the note of a wanted line and its hash |
| Literals.LineCountersAre | memsom/bridge/bridge_import.py:344-391 | every wanted reference is counted once, as created, updated or skipped, and every node that is removed |
| Literals.LineVerdictIs | memsom/bridge/bridge_import.py:350-376 | created exactly without a live node of the reference, skipped exactly if the last live one has the line's note |
| Literals.OtherRowsStay | memsom/bridge/bridge_import.py:345-391 | no old row but a live literal one changes |
| Literals.LiteralsKeepOneHop | memsom/bridge/bridge_import.py:345-391 | the literal import adds no edges and keeps the label and confidentiality invariants of the DAG |
| Literals.LiteralsKeepLivenessIff | memsom/bridge/bridge_import.py:365-389 | it keeps the liveness invariant if and only if every live child of a moved or removed literal's node is itself one |
| Literals.SecondImportIsANoopIff | memsom/bridge/bridge_import.py:322-327 | importing the same index again changes nothing if and only if no literal reference without a line had several live nodes |
| Literals.FileRowSurvivesIff | memsom/bridge/bridge_import.py:583-596 | a live file row survives the literal import exactly if its stem does not begin with `literal:`, a later live row has its reference, or an index line asks for its reference and content |
| Orphans.EditedFileOrphansItsAnswer | memsom/bridge/bridge_import.py:863-872 | import a file, derive from its node, import the edited file: the answer is alive on a dead parent |
| Orphans.DeletedLiteralStemStays | memsom/bridge/bridge_import.py:906-930 | a run that imports `literal:x.md` beside another file, then the other file alone, and leaves the node of the first alive |
| Orphans.LiteralStemNeverSettles | memsom/bridge/bridge_import.py:583-596 | a run in which `literal:x.md` is imported, loses its node to the literal import, and is judged new by the next file import |
| ImportAll.ImportBoth | memsom/bridge/bridge_import.py:583-596 | the store after files and index as one function of store, directory and index; a refusal of the files and a dry run change nothing |
| ImportAll.SecondImportAllIff | memsom/bridge/bridge_import.py:583-596 | a second run over the same files and index runs and changes nothing if and only if the directory has a file or the index no line, the lines took no present file's node, and no literal reference without a line had several live nodes |
| ImportAll.TakenIff | memsom/bridge/bridge_import.py:345-391 | the lines take a file's node exactly if its stem begins with `literal:`, no later live row has its reference, and no line asks for its reference and content |
| ImportAll.ImportAllTwiceIff | memsom/bridge/bridge_import.py:583-596 | over files without such stems, and with at most one live node for each literal reference, the second run changes nothing unless it is refused: for an empty directory with lines in the index |
| ImportAll.EmptyDirectoryIsRefusedTheSecondTime | memsom/bridge/bridge_import.py:760-770 | on a fresh store an empty directory with lines in the index imports once and is refused from then on |
| Facts.FactVersions | memsom/bridge/facts.py:51-84 | every unredacted row of the path whose top-level type is fact, once, oldest first, each with the value, unit, dates and reason of its row |
| Facts.HistoryIsUnique | memsom/bridge/facts.py:51-84 | that history is determined by the store |
| Facts.ResolveRef | memsom/bridge/facts.py:97-134 | the display of a reference, as a function of that history |
| Facts.ResolvesTo | memsom/bridge/facts.py:87-134 | value and unit are shown, nothing where that is empty; without a live version the last one as retired with its date and its reason, unless that is the removal of the file |
| Facts.VersionsAreAppendOnly | memsom/bridge/facts.py:51-84 | over every run of file imports, index imports and DAG steps a fact's versions keep place, value and date, and a death record once made |
| Facts.LiveVersionIsNewest | memsom/bridge/facts.py:97-134 | at most one version is live, and it is the newest |
| Facts.WasIffItShowedSomethingElse | memsom/bridge/facts.py:97-134 | the "was" note appears exactly when the version in force at that time displays something else that is not empty |
| Facts.HistoryLasts | memsom/bridge/facts.py:51-84 | a fact's history stands through every run of steps that neither write nor retire a row of its path |
| Facts.ReferenceShowsTheImportedValue | memsom/bridge/facts.py:97-134 | from an import on, until a step touches the path, a reference shows the value the file gives at the top level, and nothing live if the file is not a fact there |
| Facts.NestedFactIsNotRead | memsom/bridge/facts.py:47-49 | a fact nested under metadata, with or without blanks in front of the colon, is filed as a fact and not read as one |
| Facts.VanishedFactIsRetired | memsom/bridge/facts.py:97-134 | once the file is gone the last value is shown, flagged with the time of the import that noticed, until a step touches the path |
| Facts.LiveFileRowsAreTheFiles | memsom/bridge/bridge_import.py:780-930 | over every run, right after an import each present file has exactly one live row, and no other name has one unless its stem begins with `literal:` |
| Facts.MirrorTouchesLiteralStemsOnly | memsom/bridge/bridge_import.py:345-391 | over every run, an import of the index retires no file row but one whose stem begins with `literal:` |
| Facts.VanishedRowSurvivesIff | memsom/bridge/bridge_import.py:906-990 | over every run, a live file row whose file an import does not find stays alive exactly if its stem begins with `literal:` |
| ManagedBlock.NoOverlap | memsom/bridge/claude.py:29-35 | markers never overlap, because their angle brackets stand only at the ends |
| ManagedBlock.BlocksIffAlternating | memsom/bridge/claude.py:148-168 | spans are returned if and only if start and end markers strictly alternate, and are exactly the pairs |
| ManagedBlock.PairsAreUnique | memsom/bridge/claude.py:148-168 | markers can be paired in one way only |
| ManagedBlock.SpansAreDisjoint | memsom/bridge/claude.py:148-168 | the spans are ordered and disjoint |
| ManagedBlock.FindBlocks | memsom/bridge/claude.py:148-168 | the search loop computes that answer |
| Upsert.UpsertBlock | memsom/bridge/claude.py:171-198 | text and action as a function of text and block |
| Upsert.UpsertActs | memsom/bridge/claude.py:171-198 | appends exactly without any marker; else the current markers decide, or without them the older ones: malformed and untouched exactly if they do not strictly alternate |
| Upsert.RefreshKeepsOutsideText | memsom/bridge/claude.py:184-194 | all text outside the blocks is kept in order, the block stands where the first one stood, and a malformed text is returned untouched |
| Upsert.AppendKeepsText | memsom/bridge/claude.py:195-198 | appending keeps everything but trailing newlines and leaves one blank line |
| Upsert.SecondUpsert | memsom/bridge/claude.py:171-198 | over a clean block behind marker-free text, a second upsert is a noop if and only if the text behind it is marker-free |
| Upsert.UpsertTwice | memsom/bridge/claude.py:171-198 | a second upsert is a noop whenever at most one block, current or legacy, was there, and in general exactly when the remainder holds no marker |
| Upsert.JoinedMarkerBreaksTheSecondUpsert | memsom/bridge/claude.py:171-198 | a text with two blocks on which, for any block, the second upsert is no noop |
| Upsert.RenderedIsClean | memsom/bridge/claude.py:138-140 | the rendered block has its two markers at its ends and no other |
| HookMerge.FindMatches | memsom/bridge/wire_claude.py:160-166 | every matching position, in order |
| HookMerge.DeleteRound | memsom/bridge/wire_claude.py:175-179 | deleting one match from the back, emptied group included, moves the list from "cut behind the later match" to "cut behind this one" |
| HookMerge.HookList.UpsertCommand | memsom/bridge/wire_claude.py:154-180 | the list after the in-place edits, and whether it was reported changed |
| HookMerge.UpsertLeavesOne | memsom/bridge/wire_claude.py:154-180 | exactly one handler matches afterwards and it is the entry; taking it out leaves the same groups as taking the old matches out, so all other handlers keep place and group |
| HookMerge.UpsertInPlace | memsom/bridge/wire_claude.py:170-179 | the entry stands where the first match stood: the handlers in front of it stay, and those behind it that do not match follow |
| HookMerge.UpsertTwice | memsom/bridge/wire_claude.py:155-159 | a second upsert of the same entry changes nothing |
| HookMerge.HookList.UpgradeBare | memsom/bridge/wire_claude.py:209-227 | replaces every stale handler of the probe where it stands unless the entry is bare, and reports a change exactly when there is one |
| HookMerge.UpgradeKeepsMatches | memsom/bridge/wire_claude.py:209-227 | an upgrade moves no handler and changes no match |
| HookMerge.UpgradeTwice | memsom/bridge/wire_claude.py:209-227 | no stale handler is left to upgrade |
| HookSettings.CmdNamesItsSubcommand | memsom/bridge/wire_claude.py:105-111 | the probe finds the command line, quoted or not |
| HookSettings.WantsAreWellFormed | memsom/bridge/wire_claude.py:114-139 | each wanted handler matches its own probe and events are distinct |
| HookSettings.SatisfiedTwice | memsom/bridge/wire_claude.py:240-265 | an event's list brought up to date stays as it is |
| HookSettings.SettingsFile.MergeHooks | memsom/bridge/wire_claude.py:230-266 | the settings left and the changed events, or the refusal of a malformed shape with what was written before it |
| HookSettings.MergeInstalls | memsom/bridge/wire_claude.py:230-266 | every event asked for ends with a handler whose command names its subcommand |
| HookSettings.MergeAppends | memsom/bridge/wire_claude.py:230-266 | where none did before, the list is the old one and one group behind it, with the wanted matcher, command line and timeout |
| HookSettings.MergeRefreshes | memsom/bridge/wire_claude.py:209-227 | where one did, Stop and the gate's events keep every handler in place, and only stale commands are replaced, unless the new command is bare |
| HookSettings.MergeDeduplicates | memsom/bridge/wire_claude.py:154-180 | the prompt's event keeps all other handlers in order and ends with exactly one of its own, the wanted one |
| HookSettings.MergeReports | memsom/bridge/wire_claude.py:230-266 | an event is reported exactly if it was asked for and its list differs |
| HookSettings.MergeTouchesOnlyItsEvents | memsom/bridge/wire_claude.py:230-266 | other events are left alone |
| HookSettings.MergeTwice | memsom/bridge/wire_claude.py:230-233 | a second merge with the same arguments reports no change and changes nothing, for any settings the first accepted |
| Watcher.VaultWatcher.Tick | memsom/bridge/obsidian.py:773-803 | one poll: timers restarted for changed paths, settled ones dropped, a sync if there was one |
| Watcher.PendingIsUnquiet | memsom/bridge/obsidian.py:780-794 | after any number of polls pending holds exactly the paths quiet for less than the debounce time, with the last polled signature and the time of the last change |
| Watcher.SyncsExactlyWhenQuiet | memsom/bridge/obsidian.py:786-803 | a sync runs at a poll if and only if it is the first at which some changed path has been quiet for the debounce time |
| Watcher.SettledWasSteady | memsom/bridge/obsidian.py:751-754 | the settling signature was seen at every poll over at least the debounce time |
| Watcher.EqualityTestNeverDecides | memsom/bridge/obsidian.py:788-791 | a pending path always carries the current signature |
| Watcher.PendingDrains | memsom/bridge/obsidian.py:786-796 | once snapshots stop changing, nothing is pending after the debounce time |
| Watcher.ChangeIsSynced | memsom/bridge/obsidian.py:786-803 | a sync follows the last change |
| Watcher.NoSyncAfterDrain | memsom/bridge/obsidian.py:786-803 | and none comes after that |
| Watcher.SyncFindsAllQuietIff | memsom/bridge/obsidian.py:786-803 | when a sync runs every changed path is quiet exactly if nothing is left pending |
| Watcher.SyncDoesNotWaitForTheOthers | memsom/bridge/obsidian.py:751-754 | a sync may run while another note is in mid-debounce |
| VaultNote.MaskInlineCode | memsom/bridge/obsidian.py:182-212 | the index scanner computes the recursive rule |
| VaultNote.FirstClose | memsom/bridge/obsidian.py:192-206 | the close is the first later maximal run of exactly the opening length, and none is found only if there is none |
| VaultNote.MaskKeepsLength | memsom/bridge/obsidian.py:182-212 | length is kept and characters are only ever blanked |
| VaultNote.MaskTwice | memsom/bridge/obsidian.py:182-212 | masking is idempotent |
| VaultNote.AgreesWithCommonMarkIff | memsom/bridge/obsidian.py:204-206 | the rule agrees with CommonMark exactly if behind the first unmatched run no run has a later one of its length |
| VaultNote.UnmatchedRunStopsTheScan | memsom/bridge/obsidian.py:204-206 | a line on which the two differ |
| VaultNote.ChannelNeverRises | memsom/bridge/obsidian.py:146-163 | declarations only lower a note's rank, repeating one changes nothing, and their order does not matter |
| VaultNote.EffectiveChannelIs | memsom/bridge/obsidian.py:146-163 | the lower of default and declaration, the declaration read in any case and with white space around it, and ignored when it is no channel |
| TuningCache.Tuning.Persisted | memsom/tuning.py:177-202 | result and cache as a function of cache, clock and the file at stat and at read |
| TuningCache.CacheAnswersIff | memsom/tuning.py:177-202 | within a second of the last look at the path the cache answers as it is, from then on the file is looked at |
| TuningCache.Tuning.SetPersisted | memsom/tuning.py:238-253 | a rejected value changes nothing; otherwise the key is merged into what was read and the cache dropped |
| TuningCache.Tuning.UnsetPersisted | memsom/tuning.py:256-260 | the same without the key |
| TuningCache.CallIsFresh | memsom/tuning.py:177-202 | the result is what the file held at or after a moment less than a second ago, also with a write between stat and read |
| TuningCache.EveryReadIsFresh | memsom/tuning.py:170-202 | that holds of every read of every run of reads and own and foreign writes, if every write changes the modification time |
| TuningCache.OwnWriteIsSeen | memsom/tuning.py:238-270 | over every run, after its own set or unset a process never reads a version older than the one it wrote, and reads exactly that one as long as nobody else has written |
| TuningCache.SetKeepsOthersIff | memsom/tuning.py:251-270 | a set or unset keeps the other keys of the file if and only if the contents it started from (the cache within a second of the last stat, else what the stat confirmed or what was read) agree off the key with the file at the replace |
| TuningCache.UndisturbedSetKeepsOthers | memsom/tuning.py:251-270 | so with a fresh stat and nobody writing in between a set or an unset changes its key only |
| TuningCache.NoUpdateIsLost | memsom/tuning.py:238-270 | over every run whose writes look at the file and see no other process write before their replace, each write changes its own key in what the file then holds, and nothing else |
| TuningCache.UpdateStays | memsom/tuning.py:238-270 | in such a run what another process wrote under a key stays in the file until somebody writes that key |
| TuningCache.SetCanLoseAnUpdate | memsom/tuning.py:251-253 | a set half a second after a read drops a key written in between |
| TuningCache.SetLosesAWriteBeforeTheReplace | memsom/tuning.py:251-268 | a set that has read the file drops a key written before its replace |
| TuningCache.Tuning.ResolveKnob | memsom/tuning.py:273-317 | override, file, environment, default in that order, the file looked at only when it can answer |
| TuningCache.ResolveOrder | memsom/tuning.py:273-317 | each source is taken when it has a valid value and none before it has: the file's value validated, the environment's as it stands |
| TuningCache.OverrideIsUndone | memsom/tuning.py:320-332 | an override answers for its key alone, and clearing it leaves no trace |
| TuningCache.SetThenResolve | memsom/tuning.py:273-317 | an accepted set shows at the next resolve and an unset takes it back to environment or default |
| SafeJoin.Join | memsom/paths.py:138-197 | the fence's loop and final checks as a function of root, parts and link resolution |
| SafeJoin.ScrubIs | memsom/paths.py:109-135 | a part is accepted exactly if it is not empty, has no NUL, no white space at its ends, no two separators in front, no component `..`, and is absolute only where that is allowed |
| Base.SpacesAre | memsom/paths.py:109-135 | the ASCII characters that are stripped as white space |
| SafeJoin.EscapeIsUnreachable | memsom/paths.py:184-188 | for a root other than "/" the lexical escape check never rejects |
| SafeJoin.ReturnedIsUnderRoot | memsom/paths.py:184-197 | every returned path has the root's segments in front, links resolved or not |
| SafeJoin.AcceptsExactly | memsom/paths.py:109-197 | for all flags: accepted exactly if the text rules accept every part, the absolute ones come first, lie inside the root and all but the last are the root itself, under "/" nothing is named, and with links resolved the resolved path lies inside too; the path returned has the segments named, resolved or not |
| SafeJoin.AcceptsRelative | memsom/paths.py:109-135 | with relative parts only: the root and their named segments |
| PathText.JoinUnderRoot | memsom/paths.py:184-185 | join and normpath of relative parts without `..` append their named segments to the root's |
| PathText.InsideExtends | memsom/paths.py:186-188 | a canonical path that passes the prefix test has the root's segments in front |
| PathText.RelpathOfInside | memsom/paths.py:181-183 | the relative form of an absolute part inside the root is what follows the root |
| Bm25.BuildBm25 | bench/memsom_vs_improved.py:96-112 | the postings hold each term's documents with their counts and nothing else, with lengths, average and idf |
| Bm25.Bm25Scores | bench/memsom_vs_improved.py:115-125 | accumulating through the postings gives every document its score, in whatever order terms and postings are visited |
| Bm25.Bm25Rank | bench/prefix_probe.py:75-105 | the direct computation gives every document the same score, and lists each once, higher scores first and ties in document order |
| Bm25.RankingUnique | bench/prefix_probe.py:104-105 | which leaves one ranking only |
| Bm25.AnyTermFirst | bench/memsom_vs_improved.py:119 | a score does not depend on the order of the query's terms |
| Bm25.LongerScoresLess | bench/memsom_vs_improved.py:120-124 | of two documents with the same counts of the query terms the longer one scores less |
| Bm25.OftenerScoresMore | bench/memsom_vs_improved.py:120-124 | of two documents of one length the one that has a term oftener scores more |
| Bm25.ShareOfIdf | bench/memsom_vs_improved.py:120-124 | a term found once gives its idf at average length and 22/31 of it at twice that; found twice at average length 11/8 |
| Bm25.RarerWeighsMore | bench/memsom_vs_improved.py:111 | under an increasing logarithm a rarer term has the larger idf, log 2 when half the documents have it, and every idf is over log 1 |
| Bm25.ScoreBound | bench/memsom_vs_improved.py:120-124 | a score lies between 0 and (K1 + 1) times the summed idf of the matched terms |

## Left out

- SQLite, locking and schema migration: each transaction is one atomic step and a migrated store is assumed, so optional columns are always there.
- Clocks and the file system: times, modification times and what a path resolves to are parameters; an import reads the clock once where the source reads it per row.
- The content hash and the hash of an index line are parameters; only the results that need it assume the content hash injective.
- The stored text of a note, from which the export takes an instruction, is a parameter.
- Frontmatter lines are kept in the forms the parsers' expressions distinguish, not as raw text; the kernel's parser of the index is not part of this model, and its result is a parameter.
- The channel ceiling of mint_node: a file's channel is the one its type maps to.
- sync_index, relate_wikilinks, relate_fact_deps and recompute_node: the retrieval index and edges added after an import.
- Label changes after minting: manual elevation is modelled only as a label given at insertion, and recompute_conf, which walks a changed level down to the derived rows, is left out.
- Redaction across runs: the refusal is a guard of one run, and the value history is proved over runs without redaction.
- Facts.VersionsAreAppendOnly: is over runs without redaction, because a redacted row leaves the listing.
- heal_duplicates on files that cannot be read or moved: every listed copy can be.
- import_literals does not look at the redacted flag, so neither does the model.
- The text of dates, blame's and facts' printed forms, live_sources and the command lines: they would only add easy members.
- Hook commands that are not strings, and values under `hooks` inside a group that are not lists.
- Whether a command is stale or bare is a question to the file system and to lower-casing, and a parameter of the hook merger.
- The body of sync_vault, the watcher's first sync and its interrupt handling.
- The other link syntaxes masked and matched around inline code.
- Coercion and bounds of tuning knobs: a knob's validation is a parameter, and a warning once per key is not modelled.
- SafeJoin.Join: is the POSIX form; the device-name and trailing-dot rules and case folding of Windows are not modelled, and a resolved root begins with a single slash.
- Bm25.Bm25Rank: floats are reals, and rounding is not modelled.
- Lower-casing is of ASCII letters.
- The tokenizer, dense vectors, and the rest of the benchmarks.
