# Verification model of the Ikenga shell's core

Dafny models of the stateful and text-handling parts of the Ikenga desktop shell and daemon, with proofs of what they
promise, over all inputs and over whole runs with failures and crashes; where a promise holds only under a condition,
the condition is part of the theorem. `dafny verify dfyconfig.toml` checks all of it.

| file | models |
|---|---|
| `Migrations.dfy`, `MigrationRunner.dfy` | the migration runner: statements without a transaction, swallowed errors, the id inserted last, the boot rows; one process as a method |
| `MigrationRuns.dfy`, `MigrationOverlap.dfy` | any number of its processes on one file, killed anywhere, and exactly when that is safe |
| `MigrationBoots.dfy`, `MigrationDrops.dfy`, `MigrationCrashes.dfy` | one process at a time, killed anywhere, and exactly when the next boot recovers |
| `SqlStatements.dfy`, `SqlReadGuard.dfy` | the statement splitter and the read-only guard, against grammars |
| `ContentHash.dfy`, `Utf8.dfy` | the content hash: tree walk, byte order, framed stream |
| `EnvFiles.dfy`, `EnvValues.dfy` | the dotenv parser and its layers, and which values survive which way of writing them |
| `FsRoots.dfy` | the file-system allowlist: one-time seeding, write-then-publish, restarts |
| `BunFetch.dfy` | the fetched runtime: download, verify, unzip, sidecar, seed; the progress percentages |
| `HtmlAttributes.dfy`, `PkgHtml.dfy`, `PkgElements.dfy` | attribute lookup in opening tags, and the subresource inliner |
| `SecretNames.dfy`, `Secrets.dfy` | scoped secret names, and the two layers of secrets |
| `ViewerGuard.dfy` | how high a preview mount may go and what it serves |
| `Debounce.dfy`, `LayoutStore.dfy` | the debounce with the host's timers, and the two-tier layout store |
| `ProjectSwitch.dfy` | the token debounce behind project switches |
| `Text.dfy`, `Wrappers.dfy` | string searching and trimming; options and results |

Where the source updates something in place the model is a class or a loop, proved against a function of the old state;
the theorems are lemmas about that function and about runs of it. What the file system, SQLite, the network and the
clock answer is a parameter of each operation: a write that fails, a statement that is lost, a timer that is late.

The code and its remarks disagree in these places; the model follows the code:

- `split_statements` strips only `--` comments (db.rs:835-843), although db.rs:825 speaks of block comments too.
- db.rs:749-752 treats a statement that fails on replay as already applied, which covers only "already exists" and
  "duplicate column name". An unguarded drop or a rename, as in 0024, 0068 and 0071, is not covered: killed right behind
  it, the database never opens again. The drops with IF EXISTS recover, as long as no statement of the same migration
  asks for the table they drop (`MigrationCrashes.RecoversIff`).
- db.rs:704-717 says that of two processes on one file one fails. With a table that one migration makes and a later one
  drops, as 0006 and 0009 do on a fresh file, the other can also make the dropped table again, for good
  (`MigrationOverlap.DroppedTableReturns`, `MigrationOverlap.OverlapSafeIff`).
- fs_roots.rs leaves a list "someone already filled" alone, except one from before the `initialized` flag none of whose
  roots expands at that moment (`FsRoots.LegacyListSeededIff`); a load also drops every root that does not expand
  (`FsRoots.LoadKeepsFileIff`).
- runtime.rs does not remove an old sidecar before it writes a new binary, so a matching sidecar that has lost its binary
  vouches for a copy cut short by a crash (`BunFetch.SafeFromIff`).
- pkg_html.rs:158-165 checks that an attribute name stands alone, but at the first occurrence only: a `src` behind a
  `data-src` is not found, and that script stays as it is (`HtmlAttributes.DataSrcHides`, `HtmlAttributes.ExtractIff`).
- The closing-tag escape of pkg_html.rs:105 looks for lower case only (`PkgHtml.LeaksIff`).
- In the workspace scope a default whose key is reserved, or too long for the workspace form, is listed but cannot be
  read (`Secrets.ListedInIff`, `Secrets.ListedUnreadable`).
- viewer_guard.rs:170-171 says that fewer project roots only tighten the bound; with nested roots, or a root that is
  itself too broad, dropping one lets more be served (`ViewerGuard.DroppingLoosensIff`).
- layout-state.ts treats the two tiers as copies; a stored JSON `null` is the one value they answer differently
  (`LayoutStore.FallbackIff`, `LayoutStore.NullIsLost`).

## Model

| member | source | states |
|---|---|---|
| MigrationRuns.FinishedMeansSolo | src-tauri/src/db.rs:722-776 | for distinct ids and pending statements each of which could be run once more over the final schema without change or failure (add-only lists, for instance): whoever finishes, after any interleaving and any crashes, leaves the schema of one uninterrupted run, exactly one record per id, and the boot rows in place |
| MigrationRuns.RecordedMeansInSchema | src-tauri/src/db.rs:741-769 | at every moment of every such run a newly recorded id means that each of its statements is in effect, and no id has two records |
| MigrationRuns.OnlyLosersFail | src-tauri/src/db.rs:704-717 | no process fails on a statement or on the bootstrap; it fails only on inserting an id that another process of the run inserted |
| MigrationRuns.InsertFailsIff | src-tauri/src/db.rs:710-714 | and there a process does fail: its insert succeeds if and only if no other process has inserted the id since it read the snapshot |
| MigrationRuns.SomeoneSurvives | src-tauri/src/db.rs:704-717 | if a process failed, some process of the run did not |
| MigrationRuns.AtMostOneOfTwoFails | src-tauri/src/db.rs:704-717 | of two processes on one file at most one fails, in every interleaving |
| MigrationRuns.WinnerFinishes | src-tauri/src/db.rs:704-717 | when one of two processes has failed, the other, left alone, finishes with the result of a solo run |
| MigrationRuns.EventKeeps | src-tauri/src/db.rs:741-769 | every start, statement, record, boot step and kill keeps the invariant: the schema is the one an uninterrupted run has after some number of statements, and that number never goes back |
| MigrationRuns.RecordsGrow | src-tauri/src/db.rs:762-767 | recorded ids only grow |
| MigrationRuns.StepExecutes | src-tauri/src/db.rs:741-761 | a step of a process executes exactly as many statements as it moves on in its own list of pending statements |
| MigrationRuns.SettledStays | src-tauri/src/db.rs:741-744 | once everything is recorded and booted, no boot executes a migration statement or changes a row |
| MigrationRuns.LaterBootsDoNothing | src-tauri/src/db.rs:771-804 | after a completed run with nobody half way, schema, records and boot rows are the same after any further boots |
| MigrationRuns.NextBootFinishes | src-tauri/src/db.rs:741-776 | after any number of overlapping boots crashed anywhere, one boot left alone completes and gives the schema and ids of a single uninterrupted run |
| MigrationOverlap.OverlapSafeIff | src-tauri/src/db.rs:704-717 | for any list whose solo run completes: overlapping processes are safe, so that only the insert of an id fails and finishers see the solo schema, if and only if every pending statement, run once more over the final schema, changes nothing and does not fail |
| MigrationOverlap.StaleStatement | src-tauri/src/db.rs:733-745 | the run that shows the condition is needed: a process with an old snapshot executes the statement after another has finished |
| MigrationOverlap.DroppedTableReturns | src-tauri/src/db.rs:733-745 | a list like 0006 and 0009 on a fresh file: one process finishes, all ids are recorded, and the dropped table is there again |
| Migrations.Replay | src-tauri/src/db.rs:749-758 | replaying a statement that such a run has passed changes nothing and fails with a swallowed error at most |
| Migrations.ReplaysIff | src-tauri/src/db.rs:749-758 | which statements leave which schemas alone: an add whose object is there, a guarded drop whose object is not, never a bare drop or a rename |
| Migrations.AddOnlySteady | src-tauri/src/db.rs:749-758 | every list that only adds, and runs, meets the condition for overlapping processes |
| Migrations.BootStepFixed | src-tauri/src/db.rs:786-804 | a bootstrap statement replayed at any later time changes no row |
| MigrationRuns.ProjectIdsKept | src-tauri/src/db.rs:786-804 | no run changes the Default project's creation time or a project id that a row has |
| Migrations.ExecuteFrame | src-tauri/src/db.rs:753 | each kind of statement changes its own object, or its table with all that belongs to it, and nothing else |
| Migrations.RenameMoves | src-tauri/src/db.rs:753 | a rename takes along the columns and indexes of its table, and leaves nothing under the old name |
| MigrationDrops.DropStrands | src-tauri/src/db.rs:753-760 | if a pending migration takes away only older things, and one of its statements asks for something that it or a later one takes away, some crash leaves a database that no later boot can open |
| MigrationDrops.PassStep | src-tauri/src/db.rs:741-761 | otherwise every statement of every replay runs, whatever earlier crashes left behind |
| MigrationDrops.PassEnds | src-tauri/src/db.rs:741-767 | a replay that comes to its end has the schema of the uninterrupted run |
| MigrationCrashes.RecoversIff | src-tauri/src/db.rs:741-769 | for lists of adds, guarded and unguarded drops and renames whose pending migrations take away only older things: after every history of one process at a time, killed anywhere, the next boot finishes if and only if no pending statement asks for something that it or a later one of its migration takes away |
| MigrationCrashes.RecoveredMeansSolo | src-tauri/src/db.rs:741-776 | whoever finishes after such a history leaves the schema and ids of one uninterrupted run |
| MigrationCrashes.RecoversIffNoDrop | src-tauri/src/db.rs:741-769 | with no IF EXISTS drops pending, the next boot finishes after every history, of overlapping processes too, if and only if nothing pending is a drop or a rename |
| MigrationCrashes.GuardedDropsLast | src-tauri/migrations/0060_drop_chat_sessions.sql:10-13 | the statements of 0040 and 0060 meet the condition for recovery |
| MigrationCrashes.BareDropsStrand | src-tauri/migrations/0071_artifact_comments_widen_sink.sql:8-46 | the schema statements of 0024, 0068 and 0071 do not |
| MigrationRunner.Database.EnsureSchema | src-tauri/src/db.rs:722-776 | one process alone: when all migrations run, what they then leave and how far the bootstrap gets; where it stops otherwise |
| MigrationRunner.Database.ApplyOne | src-tauri/src/db.rs:745-761 | one migration's statements bring the schema from one point of the uninterrupted run to the next, or stop at a real error |
| MigrationRunner.Database.Bootstrap | src-tauri/src/db.rs:786-804 | the three bootstrap statements run one by one up to the first whose table or columns are missing, and what ran stays |
| MigrationRunner.BootFirstHolds | src-tauri/src/db.rs:786-804 | what each of the statements that ran has established |
| MigrationRunner.BootFirstIs | src-tauri/src/db.rs:786-804 | which rows the bootstrap fills in, as far as it got: those without a project id, and the Default project if it was missing |
| MigrationRunner.BootReachIff | src-tauri/src/db.rs:786-804 | how far the bootstrap gets, by the tables and columns that are there |
| MigrationRunner.NewIdsAre | src-tauri/src/db.rs:741-767 | the ids a run inserts are exactly those listed and not yet recorded |
| SqlStatements.SplitStatements | src-tauri/src/db.rs:824-859 | the character loop with its two variables computes the recursive scanner |
| SqlStatements.SplitJoin | src-tauri/src/db.rs:824-859 | every list of trimmed statements with balanced quotes and no `;` or `--` outside them is recovered from its `;`-terminated concatenation |
| SqlStatements.SplitWellSplit | src-tauri/src/db.rs:824-859 | every piece that comes out has that form, except a last one whose literal never closes |
| SqlStatements.LastKept | src-tauri/src/db.rs:854-858 | behind complete statements, whatever is left at the end of the text is the last piece, trimmed, unless it is blank: it needs no `;` and no closing quote |
| SqlStatements.ResplitIff | src-tauri/src/db.rs:824-859 | printing the pieces and splitting again is the identity if and only if the text ends outside a literal |
| SqlStatements.CommentIgnored | src-tauri/src/db.rs:834-843 | a line comment outside quotes is as good as absent |
| SqlReadGuard.IsReadOnlySql | src-tauri/src/db.rs:919-940 | the loop terminates and accepts exactly the texts of the grammar: whitespace, closed line and block comments, then select or with as a whole word in any case |
| SqlReadGuard.NoiseUnique | src-tauri/src/db.rs:919-940 | no text begins with two different pieces of whitespace or comment, so the grammar has one reading |
| SqlReadGuard.PrefixIgnored | src-tauri/src/db.rs:919-940 | any such prefix makes no difference to whether a text is a read |
| SqlReadGuard.KeywordDecides | src-tauri/src/db.rs:902-917 | where no comment or space stands, the word decides |
| SqlReadGuard.WordEnds | src-tauri/src/db.rs:902-917 | a text that begins with select or with in any case is a read if and only if it ends there or goes on with no letter, digit or underscore |
| ContentHash.Walker.Visit | scripts/catalog-pin/core.ts:60-74 | the recursive closure appends the walk of a directory, skipping `.git` |
| ContentHash.WalkSound | scripts/catalog-pin/core.ts:60-74 | every path the walk yields is the slash-joined path of a file with that content |
| ContentHash.WalkComplete | scripts/catalog-pin/core.ts:60-74 | every file outside `.git` is yielded |
| ContentHash.WalkDistinct | scripts/catalog-pin/core.ts:60-74 | no relative path is yielded twice |
| ContentHash.RelUnique | scripts/catalog-pin/core.ts:67 | different components give different relative paths |
| ContentHash.SortOk | scripts/catalog-pin/core.ts:43 | the sort is a permutation, ordered by UTF-8 bytes (`Utf8.LessIff` says what that order is) |
| ContentHash.SortedByCodePoints | scripts/catalog-pin/core.ts:32-43 | of two paths in the sorted list the later one is equal, or goes on where the earlier ends, or has the larger code point where they first differ |
| ContentHash.SortStable | scripts/catalog-pin/core.ts:43 | entries of one path keep their order |
| ContentHash.HashEntries | scripts/catalog-pin/core.ts:42-52 | the update loop feeds the framed lines of the sorted entries |
| ContentHash.ContentHashDir | scripts/catalog-pin/core.ts:76-78 | what is hashed for a directory is the stream of its sorted walk |
| ContentHash.FramesUnique | scripts/catalog-pin/core.ts:45-50 | the NUL, 64-digit and newline framing can be decoded: equal streams come from equal lines |
| ContentHash.SortedUnique | scripts/catalog-pin/core.ts:43 | a set of lines has one sorted order |
| ContentHash.StreamIff | scripts/catalog-pin/core.ts:42-78 | two directories give the same stream if and only if the same relative paths hold the same content digests |
| ContentHash.OrderAndGitIgnored | scripts/catalog-pin/core.ts:60-78 | enumeration order at every level, and anything under `.git`, make no difference |
| ContentHash.FileIsNoDir | scripts/catalog-pin/core.ts:54-56 | a file hashed on its own never streams like a directory |
| Utf8.EncodeInjective | scripts/catalog-pin/core.ts:46 | different names have different bytes |
| Utf8.LessTotal | scripts/catalog-pin/core.ts:33-35 | the byte order is total and strict |
| Utf8.LessIff | scripts/catalog-pin/core.ts:33-35 | one byte string comes before another if and only if it is a proper prefix of it or has the smaller byte where they first differ |
| Utf8.EncodedOrder | scripts/catalog-pin/core.ts:32-35 | the bytes of two texts are ordered as their code points are |
| EnvFiles.ParseEnvString | src-tauri/src/env_files.rs:38-59 | the line loop computes the map of the text |
| EnvFiles.IsValidEnvKey | src-tauri/src/env_files.rs:61-71 | accepts exactly the keys that start with a letter or underscore and go on with letters, digits and underscores |
| EnvFiles.ParseValue | src-tauri/src/env_files.rs:73-112 | every string comes back from between double quotes with the escapes and from between single quotes; bare, a string stands for itself if and only if it is trimmed, is not quoted and holds no space with `#` behind |
| EnvFiles.CommentCut | src-tauri/src/env_files.rs:104-110 | behind a bare value that does not begin with a quote, a space and `#` begin a comment |
| EnvValues.SingleQuotedIff | src-tauri/src/env_files.rs:38-112 | a file holding `KEY='value'` gives exactly that value if and only if it has no newline |
| EnvValues.BareIff | src-tauri/src/env_files.rs:38-112 | a file holding `KEY=value` gives exactly that value if and only if it has no newline and is plain |
| EnvValues.AssignParses | src-tauri/src/env_files.rs:38-59 | trimming, `export`, comments and the first `=` never get in the way of a line that assigns a valid key |
| EnvValues.ExportParses | src-tauri/src/env_files.rs:45 | `export` and any whitespace before a valid key change nothing about the entry |
| EnvValues.DoubleQuotedIff | src-tauri/src/env_files.rs:75-101 | put between double quotes as it is, a value stands for itself if and only if no backslash in it comes directly before one of the seven characters that can be escaped |
| EnvFiles.DecodeQuoted | src-tauri/src/env_files.rs:73-112 | the escape loop decodes the quoted text |
| EnvFiles.UnescapeEscape | src-tauri/src/env_files.rs:73-112 | decoding undoes encoding for every string, and the encoded form has no newline |
| EnvFiles.LineParses | src-tauri/src/env_files.rs:38-112 | the printed line of a valid key and any value parses to exactly that pair |
| EnvFiles.MapRoundTrip | src-tauri/src/env_files.rs:38-112 | every map from valid keys to arbitrary strings is recovered from its printed text, in whatever order it is written |
| EnvFiles.ParsePrint | src-tauri/src/env_files.rs:38-112 | printing any list of entries and parsing it gives their map, the last entry of a key winning |
| EnvFiles.ParseConcat | src-tauri/src/env_files.rs:38-59 | for all texts, parsing one, a newline and the other gives the first map overridden by the second |
| EnvFiles.BuildLayeredEnv | src-tauri/src/env_files.rs:126-145 | the layered map is the parse of the workspace file and of `.env` and `.env.local` in the project root concatenated, each key with the value of the last layer that defines it |
| FsRoots.Roots.LoadSeeded | src-tauri/src/fs_roots.rs:113-155 | a load is the run step of that name, and fails only on an unreadable file |
| FsRoots.EntriesExpanded | src-tauri/src/fs_roots.rs:85-96 | the entries are, in order, exactly the inputs that expand, each with its own expansion |
| FsRoots.ExpandedUnique | src-tauri/src/fs_roots.rs:85-96 | there is only one such list of entries |
| FsRoots.LoadExpands | src-tauri/src/fs_roots.rs:113-138 | the live entries after a load are those of the list in the file, or those of the seed where the file is missing or holds an empty list that was never set up |
| FsRoots.LoadAllowsIff | src-tauri/src/fs_roots.rs:113-172 | after a load a path is allowed if and only if some input of that list expands to a prefix of it |
| FsRoots.ResetExpands | src-tauri/src/fs_roots.rs:212-219 | the live entries after a reset are those of the list the process was started with |
| FsRoots.ResetAllowsIff | src-tauri/src/fs_roots.rs:165-219 | after a reset a path is allowed if and only if some input of that list expands to a prefix of it |
| FsRoots.Roots.Mutate | src-tauri/src/fs_roots.rs:221-253 | an edit succeeds exactly if its write does; then file and live list are the edited list, otherwise both are as before |
| FsRoots.Roots.Add | src-tauri/src/fs_roots.rs:185-205 | when an add succeeds, and that it is the run step of that name |
| FsRoots.Roots.Remove | src-tauri/src/fs_roots.rs:207-210 | a removal succeeds exactly if its write does, is the run step of that name, and otherwise changes nothing |
| FsRoots.Roots.Reset | src-tauri/src/fs_roots.rs:212-219 | a reset succeeds exactly if its write does, is the run step of that name, and otherwise changes nothing |
| FsRoots.Roots.IsAllowed | src-tauri/src/fs_roots.rs:165-172 | allowed exactly when some live root is a prefix of the path |
| FsRoots.Roots.RootWithin | src-tauri/src/fs_roots.rs:174-181 | finds the first live root at or below the path, and finds one exactly when there is one |
| FsRoots.AddedIs | src-tauri/src/fs_roots.rs:185-205 | adding twice is adding once, inputs and roots stay distinct, and an entry is added if and only if both its input and its root are new |
| FsRoots.AddAllows | src-tauri/src/fs_roots.rs:185-205 | an add allows the resolved root and nothing else new, unless the same input is already listed with another expansion |
| FsRoots.RemovedIs | src-tauri/src/fs_roots.rs:207-210 | a removal keeps exactly the other inputs |
| FsRoots.EditIsAllOrNothing | src-tauri/src/fs_roots.rs:221-253 | an edit changes nothing, or leaves file and live list equal and marked as set up |
| FsRoots.FlagNeverReverts | src-tauri/src/fs_roots.rs:113-155 | no run of loads, edits, failed writes, crashes and restarts takes the flag back |
| FsRoots.NeverSeededAfterEdit | src-tauri/src/fs_roots.rs:113-155 | once an edit has reached the file, no later load seeds the list, whatever happens in between |
| FsRoots.StaysInSync | src-tauri/src/fs_roots.rs:221-253 | file and live list stay equal over every run whose loads could write |
| FsRoots.LoadKeepsFileIff | src-tauri/src/fs_roots.rs:85-96 | a load that does not seed rewrites the file unchanged if and only if every root still expands |
| FsRoots.LegacyListSeededIff | src-tauri/src/fs_roots.rs:113-155 | a filled list from before the flag is seeded by the next load if and only if none of its roots expanded and there is a seed |
| BunFetch.TrustedMeansGenuine | src-tauri/src/runtime.rs:516-711 | over every run with a fixed pin, arbitrary downloads and a crash at any write: a matching sidecar or a seeded path means the binary on disk is the complete extract of an archive whose hash is the pin |
| BunFetch.StepKeeps | src-tauri/src/runtime.rs:557-711 | each step of the fetch keeps the invariant behind that |
| BunFetch.SafeFromIff | src-tauri/src/runtime.rs:561-566 | every run from a disk is safe if and only if no matching sidecar stands there without the genuine binary |
| BunFetch.SidecarTrustedIff | src-tauri/src/runtime.rs:271-280 | a sidecar cut short is trusted exactly when the whole pin reached the disk |
| BunFetch.MatchesIff | src-tauri/src/runtime.rs:271-280 | a sidecar vouches for the binary if and only if it holds the pin with nothing but whitespace around it |
| BunFetch.Runtime.EnsureBun | src-tauri/src/runtime.rs:516-711 | a call is a run of those steps; it succeeds exactly when already trusted, or when every operation does and the download is the pinned archive; an unverified download never touches the disk |
| BunFetch.Runtime.Install | src-tauri/src/runtime.rs:661-711 | writing the binary, then the sidecar, then seeding, with what is on the disk after each failure |
| BunFetch.Runtime.ReadStream | src-tauri/src/runtime.rs:593-618 | the loop collects the whole download, or nothing when the stream breaks |
| BunFetch.Runtime.FindBinary | src-tauri/src/runtime.rs:646-688 | the loop returns the content of the first file entry that is named like the binary or ends with a slash and that name, and nothing if and only if there is none |
| BunFetch.EmitProgress | src-tauri/src/runtime.rs:568-618 | the percentages sent start at 0, rise strictly, stay within 100 and are at most 101 in number, ending at what was downloaded |
| BunFetch.HundredIff | src-tauri/src/runtime.rs:611 | 100 is reached exactly when everything arrived and the total times 100 fits in 64 bits |
| BunFetch.PercentIff | src-tauri/src/runtime.rs:611 | the percentage is the largest whole number up to 100 whose multiple of the total the saturated product reaches |
| BunFetch.PercentMonotone | src-tauri/src/runtime.rs:611 | more bytes never give a smaller percentage |
| PkgHtml.InlineSubresources | src-tauri/src/pkg_html.rs:52-148 | the cursor loop always advances and computes the rendering of the segments |
| PkgHtml.InlineTag | src-tauri/src/pkg_html.rs:86-145 | what replaces one opening tag, and how much of the text that covers |
| HtmlAttributes.ExtractAttribute | src-tauri/src/pkg_html.rs:150-175 | for every opening tag in which no other attribute's name ends with the one asked for and no quoted value holds it with `=` behind, the loop returns the value of the first double-quoted attribute of that name, else of the first single-quoted one, else nothing |
| HtmlAttributes.PlainTag | src-tauri/src/pkg_html.rs:150-175 | the same of the lookup it computes |
| HtmlAttributes.ExtractIff | src-tauri/src/pkg_html.rs:150-175 | for every opening tag: a quoted attribute of the name is the one taken if and only if the first `name="` is that attribute, or, where that search comes to nothing, the first `name='` |
| HtmlAttributes.DataSrcHides | src-tauri/src/pkg_html.rs:156-165 | a `src` behind a `data-src` is not found |
| HtmlAttributes.AloneIff | src-tauri/src/pkg_html.rs:158-170 | the first attribute of a tag is found if and only if its name stands at the start or behind a space, tab, line feed or carriage return |
| PkgHtml.InlineIff | src-tauri/src/pkg_html.rs:52-148 | a text is the output if and only if it renders a faithful cut of the input: plain stretches kept in order, and a script element or stylesheet link replaced exactly when the lookup finds it a `src` or `href` that is relative and readable |
| PkgHtml.SegmentsFaithful | src-tauri/src/pkg_html.rs:52-148 | the cut loses no character, and replaces a script element or stylesheet link exactly when the lookup (see HtmlAttributes) finds it a relative `src` or `href` that can be read |
| PkgHtml.FaithfulRenders | src-tauri/src/pkg_html.rs:52-148 | all faithful cuts of a text render alike |
| PkgElements.ScriptReplaced | src-tauri/src/pkg_html.rs:86-121 | wherever it stands, `<script src="…"></script>` gives way to the file, escaped, unless the URL is empty, begins with `/`, `#` or one of the seven schemes, or cannot be read; then it stays |
| PkgElements.StylesheetReplaced | src-tauri/src/pkg_html.rs:122-145 | the same of `<link rel="stylesheet" href="…">` |
| PkgElements.StylesheetIff | src-tauri/src/pkg_html.rs:124-127 | a link is a stylesheet if and only if its tag holds one of three spellings of `rel`, in any case |
| PkgElements.RelativeIff | src-tauri/src/pkg_html.rs:177-188 | which URLs are relative |
| PkgElements.EscapeNext | src-tauri/src/pkg_html.rs:105 | up to the first closing tag a file is copied, that tag gets a backslash, and so on behind it |
| PkgElements.EscapeNone | src-tauri/src/pkg_html.rs:105 | a file without that closing tag is copied whole |
| HtmlAttributes.FindCiIs | src-tauri/src/pkg_html.rs:243-246 | the first occurrence that ignores ASCII case |
| PkgHtml.NothingToInline | src-tauri/src/pkg_html.rs:52-148 | a text with nothing to replace is returned unchanged |
| PkgHtml.UnreadableUnchanged | src-tauri/src/pkg_html.rs:52-148 | when no file can be read, every text is returned unchanged |
| PkgHtml.NoLowerClose | src-tauri/src/pkg_html.rs:103-105 | no inlined body contains its lower-case closing tag |
| PkgHtml.LeaksIff | src-tauri/src/pkg_html.rs:103-105 | an inlined body contains its closing tag in some case if and only if the file had one that was not all lower case |
| PkgHtml.UpperCaseLeaks | src-tauri/src/pkg_html.rs:105 | a file that is just `</SCRIPT` does so |
| SecretNames.ParsesBackIff | src-tauri/src/secrets/scope.rs:50-94 | a vault key parses back to its scope and key exactly when the key is not empty and no delimiter begins in the id |
| SecretNames.NewKeyIff | src-tauri/src/secrets/index.rs:143-185 | which keys a new write takes, spelled out by characters and length |
| SecretNames.NewScopeIff | src-tauri/src/secrets/index.rs:196-208 | which scopes a new write takes |
| SecretNames.ExistingNameIff | src-tauri/src/secrets/scope.rs:106-114 | which scopes and keys the reads and deletes accept: no delimiter begins in the id, the key is neither empty nor reserved, and the full name has no NUL and fits |
| SecretNames.ParsePrints | src-tauri/src/secrets/scope.rs:50-94 | what a name parses to prints that name, so parsing is injective |
| SecretNames.NewNamesParse | src-tauri/src/secrets/scope.rs:44-48 | every name a new write uses parses back, and no new bare key reads as scoped |
| SecretNames.PlacesApart | src-tauri/src/secrets/scope.rs:106-134 | no two places the commands can address share a name |
| SecretNames.ParsedKeyLegacy | src-tauri/src/secrets/scope.rs:106-114 | a stored scoped name can be read unless its key is reserved |
| SecretNames.ExistingScope | src-tauri/src/secrets/scope.rs:116-119 | a scope with a readable key can be listed |
| Secrets.WriteIs | src-tauri/src/secrets_env.rs:457-534 | which commands an open store carries out, and that each touches one name only |
| Secrets.RunIsIndependentMaps | src-tauri/src/secrets_env.rs:457-534 | after every sequence of scoped and unscoped writes and deletes, refused and faulted ones included, each place holds what a map of its own would |
| Secrets.GetAfterRun | src-tauri/src/secrets_env.rs:389-407 | after any run a bare key answers its own map over the operator default |
| Secrets.GetScopedAfterRun | src-tauri/src/secrets_env.rs:479-495 | after any run a scoped key answers its own map, with the default beneath the workspace scope alone |
| Secrets.FaultedRead | src-tauri/src/secrets_env.rs:389-495 | a read that meets a fault inside the store answers that fault, never a default |
| Secrets.DefaultsAlone | src-tauri/src/secrets_env.rs:122-137 | without a principal layer a bare key, or one in the workspace scope, answers its variable; which keys are refused |
| Secrets.WriteThenRead | src-tauri/src/secrets_env.rs:462-534 | what an accepted write stored is read back at once |
| Secrets.DeleteReveals | src-tauri/src/secrets_env.rs:470-474 | a delete lets the default through again |
| Secrets.DeleteScopedReveals | src-tauri/src/secrets_env.rs:530-534 | a scoped delete lets the default through in the workspace scope and leaves nothing elsewhere |
| Secrets.RunKeepsSound | src-tauri/src/secrets_env.rs:457-534 | every run keeps each stored name addressable |
| Secrets.ListedIff | src-tauri/src/secrets_env.rs:389-426 | a bare key is listed if and only if it reads as a value |
| Secrets.ListedInIff | src-tauri/src/secrets_env.rs:479-520 | a scoped key reads as a value if and only if it is listed and its name is accepted, and which listed keys are not |
| Secrets.ListedUnreadable | src-tauri/src/secrets_env.rs:479-520 | a default that is listed in the workspace scope and cannot be read there |
| Secrets.FailsClosed | src-tauri/src/secrets_env.rs:375-381 | a broken or stranded store answers no read and takes no write over any run, whatever the defaults hold |
| Secrets.DaemonSecrets.Apply | src-tauri/src/secrets_env.rs:457-534 | each write command's new state, unchanged when refused |
| Secrets.DaemonSecrets.DefaultNames | src-tauri/src/secrets_env.rs:450-455 | the defaults' names, ascending and without repetition, whatever the store's state |
| Secrets.DaemonSecrets.ListKeys | src-tauri/src/secrets_env.rs:410-426 | the unscoped names of both layers, ascending and without repetition |
| Secrets.DaemonSecrets.IndexNames | src-tauri/src/secrets_env.rs:429-443 | every name of both layers, scoped ones in full, ascending and without repetition |
| Secrets.DaemonSecrets.ListKeysScoped | src-tauri/src/secrets_env.rs:498-520 | the keys of one scope, with the defaults in the workspace scope, ascending and without repetition; which scopes are refused |
| Secrets.Sort | src-tauri/src/secrets_env.rs:422 | a sorted permutation |
| Secrets.Dedup | src-tauri/src/secrets_env.rs:423 | a sorted list loses its repetitions and nothing else |
| Secrets.AscendingUnique | src-tauri/src/secrets_env.rs:422-423 | a set of names has exactly one ascending list without repetition |
| ViewerGuard.ProjectRootIff | src-tauri/src/viewer_guard.rs:42-54 | the chosen root is the eligible one that every other eligible root contains |
| ViewerGuard.OrderOfRootsIgnored | src-tauri/src/viewer_guard.rs:42-104 | order and repetition of the project roots make no difference |
| ViewerGuard.MountIff | src-tauri/src/viewer_guard.rs:82-104 | a mount is granted exactly to the roots between the bound and the file, with the bound's scope; which root gets which refusal |
| ViewerGuard.TreeIff | src-tauri/src/viewer_guard.rs:56-104 | a granted mount is a tree if and only if the bound is at least two levels down, does not hold home, and lies neither directly below `/home` nor beside home |
| ViewerGuard.OneProject | src-tauri/src/viewer_guard.rs:42-54 | a project bounds a file exactly if it holds the file and is neither `/` nor home nor above home; with `ProjectRootIff` that settles the bound |
| ViewerGuard.NarrowingKeeps | src-tauri/src/viewer_guard.rs:82-104 | narrowing the root towards the file keeps the answer |
| ViewerGuard.TreeIsNarrow | src-tauri/src/viewer_guard.rs:56-104 | a tree's root contains the file and is neither home, above it, beside it, directly below `/home` nor of depth one or less |
| ViewerGuard.ServesIff | src-tauri/src/viewer_guard.rs:82-166 | what is served, by the bound alone |
| ViewerGuard.TreeServesIff | src-tauri/src/viewer_guard.rs:106-166 | below a tree everything is served but hard links and paths with a credential's name in them, and which names those are |
| ViewerGuard.ServedIsSafe | src-tauri/src/viewer_guard.rs:128-166 | whatever is served is no credential and no hard link, and is the previewed file or lies in such a tree |
| ViewerGuard.LoosensIff | src-tauri/src/viewer_guard.rs:82-104 | exactly when some request is answered under one set of roots and not under another, credential names included |
| ViewerGuard.DroppingLoosensIff | src-tauri/src/viewer_guard.rs:168-187 | dropping a project root lets more be served if and only if it was the root in force and the bound goes up (another root holds the file, or the root was the file) or stops being broad, and no credential name stands in the way |
| ViewerGuard.InnerRootMatters | src-tauri/src/viewer_guard.rs:168-171 | with nested projects, dropping the inner root opens the outer tree |
| Debounce.RunIs | src/lib/layout-state.ts:124-152 | after every history a timer is armed exactly while arguments are pending, it is the newest call's, and what was delivered is the last call of each finished burst in order |
| Debounce.FireIff | src/lib/layout-state.ts:130-138 | a timeout can run only directly behind the call that armed it and after the whole delay |
| Debounce.NewestDelivered | src/lib/layout-state.ts:133-150 | once the timer runs or flush is called, the newest call is delivered and nothing is pending |
| Debounce.DeliveredInOrder | src/lib/layout-state.ts:124-152 | deliveries are a subsequence of the calls |
| Debounce.Debounced.Call | src/lib/layout-state.ts:130-139 | clears the old timer, keeps the newest arguments, arms a new one |
| Debounce.Debounced.Fire | src/lib/layout-state.ts:133-138 | the timer's callback clears timer and arguments before it delivers them |
| Debounce.Debounced.Flush | src/lib/layout-state.ts:140-150 | cancels the timer and delivers what is pending |
| LayoutStore.RunIs | src/lib/layout-state.ts:99-117 | after every history localStorage holds the changes it took, SQLite those whose statement took effect, each in order |
| LayoutStore.TiersAgree | src/lib/layout-state.ts:99-117 | a key's two copies agree as soon as its newest statement took effect, whatever was lost before |
| LayoutStore.LoadsNewest | src/lib/layout-state.ts:77-117 | once the newest change to a key took effect a load answers it from either tier: the saved value, or the fallback where it was a delete or, from localStorage, a `null` |
| LayoutStore.LoadsOld | src/lib/layout-state.ts:77-117 | while a save is under way, a load that reaches SQLite answers the value there before, and one that does not already answers the new one |
| LayoutStore.DrainedTiersEqual | src/lib/layout-state.ts:77-117 | with nothing refused, lost or under way the tiers are equal, and loads agree exactly when no `null` was stored |
| LayoutStore.FallbackIff | src/lib/layout-state.ts:77-97 | where the copies agree, a fallback load answers the same if and only if the value is not `null` |
| LayoutStore.NullIsLost | src/lib/layout-state.ts:95-96 | a saved `null` comes back as the fallback from localStorage |
| LayoutStore.Layout.Save | src/lib/layout-state.ts:99-117 | localStorage changes at once if it accepts, and an upsert is queued |
| LayoutStore.Layout.Delete | src/lib/layout-state.ts:211-230 | the shadow goes at once, and a DELETE is queued |
| LayoutStore.Layout.LoadState | src/lib/layout-state.ts:77-97 | SQLite first, then localStorage, then the fallback |
| ProjectSwitch.PassesIncrease | src-tauri/src/lib.rs:908-927 | in every interleaving tasks pass the check in strictly increasing token order, each with its own event's project |
| ProjectSwitch.PassIff | src-tauri/src/lib.rs:921-927 | a task that wakes passes if and only if no later switch came, and then its switch is at least the sleep old |
| ProjectSwitch.NewestPasses | src-tauri/src/lib.rs:921-927 | once the newest task has woken, the last pass is the project chosen last |
| ProjectSwitch.NewestCanPass | src-tauri/src/lib.rs:921-927 | once events stop, the newest task can always wake and pass |
| ProjectSwitch.StepKeeps | src-tauri/src/lib.rs:908-927 | every event and wake-up keeps the invariant behind these |
| ProjectSwitch.Listener.ActiveChanged | src-tauri/src/lib.rs:910-921 | a valid event takes the next token and spawns a task; an invalid one does nothing |
| ProjectSwitch.Listener.Awake | src-tauri/src/lib.rs:922-927 | a woken task reconciles exactly if its token is the newest |

## Left out

- SQLite itself: migrations are lists of statements that create, alter, drop or rename tables, columns and indexes; how a
  statement's text maps to one is not modelled, nor are statements that change data, such as the copying in 0071.
- SQLite's refusal to drop a column that an index or view uses, and names shared between indexes of different tables.
- MigrationCrashes.RecoversIff: a migration that drops, before its first unguarded drop or rename, something it has made
  itself is outside it; none of the shipped ones does.
- `claude_roots_to_projects_migration_v1`, which `bootstrap_default_project` calls in the desktop build, is not part of
  this model.
- SHA-256 and zip decoding are parameters, and so is the alphanumeric class of non-ASCII characters; injectivity is
  claimed of the hashed stream, not of the hash.
- Symbolic links, hard-link counts, canonicalization and shell expansion are answers from outside; a dangling link in a
  hashed tree, which makes the walk throw, is not modelled, and file names with lone surrogates are not.
- Flushing to disk: a rename is atomic and a write reaches the disk up to some character or byte.
- BunFetch.TrustedMeansGenuine: one fetch at a time and one pin, as the sidecar is meant for; the boot-time resolution of
  `bun_path` and `version_ge` are not modelled.
- BunFetch.EmitProgress: the chunks together fit into a byte vector, as the loop stores them in one.
- PkgHtml: reading a subresource is a parameter, and `inject_base_href` is straight-line building with only easy claims.
- Secrets: the principal store's encryption, file format and total-size limit are one fault per call that changes
  nothing; `status`, `lock_state` and the opening of the layers are left out, being case tables.
- ViewerGuard: names that are not valid UTF-8, and the database query for the project roots.
- Debounce: a wrapped function that throws or calls the debounced one again.
- LayoutStore: JSON printing and parsing, the cached database handle and the legacy-key migration; statements reach SQLite
  in the order they were issued.
- ProjectSwitch: a counter that wraps after 2^64 events, weakly ordered atomic loads, and the reconcile a passing task then
  runs, which may overlap an earlier one.
- `sortKeysDeep`: JavaScript itself reorders integer-like keys, and for other keys the claim is easy.
- The user interface, the toast queue, boot timing and wiring: only easy members.
