# Mediated mailbox: a verified model

A model, in Dafny 4.11, of the parts of the mediated mailbox server whose claims are about whole runs, or about a
fast form agreeing with a simple one. `dafny verify dfyconfig.toml` checks everything.

What changes state in the program changes state here: the account loader, the holder and its sessions, the mailbox,
the search under compilation, the policy loader, the sliding window and the host are classes whose methods say what
the new state is, and loops stay loops with invariants. Each is tied to specification functions on values, and the
theorems are about those functions and about runs of them. The database, the provider, the clock and randomness
appear as parameters: what a transaction returned, whether a compare-and-set landed, the bytes of a seal, the draw of
a backoff.

**Credentials** (`Sealing`, `AccountLoad`, `AccountLoader`, `LoaderInvariant`, `LoaderPairs`, `AccountSession`,
`WriteBack`, `WriteBackSteps`, `WriteBackSafety`, `WriteBackOverlap`). The loader holds each account's sealed bytes,
the baseline they open to, the credential in use and an adoption stamp. Which client an account carries is said over
the rows read alone. `WriteBack` interleaves its transactions one at a time with an operator and other processes that
store, rewrite and remove rows, with units of work that open sessions over shared sources, rotate and capture their
hand-over, with loads, re-reads and re-seals of credentials and client secrets, and with writes that fail whether or not they were
applied. `WriteBackSteps` shows that the steps compose to what the loader's methods do in one call. Each credential
has a lineage, the outside store it was stored by or rotated from, which nothing in the process reads. The inductive
invariant gives the safety theorem: a hand-over never puts back a credential that an outside store replaced. It needs
fresh outside credentials and rotations that stay in their grant, but not that seals are fresh: two seals with equal
bytes open to one credential, so comparing bytes is enough.

**Scanning and masking** (`Bytes`, `AhoCorasick`, `AhoCorasickBuild`, `Utf8`, `Tokens`, `DigitGroups`, `Detect`,
`DetectRules`, `Masking`). The automaton is built with its trie, breadth-first failure links and merged outputs, and its search is proved to report
each occurrence once. The detector over it, with its sorted indexes and binary searches, is proved to find exactly the
spans its rules of both tiers say, each once, and the byte loop that masks a subject to change whole characters and no
others.

**Queries** (`SearchText`, `Labels`, `Query`). A query compiles to a search text and label identifiers. Nothing is
assumed of the provider's search but that a date bound accepts messages clear of it by their own second and a sender
term accepts equal addresses. The text is read back by a reader of its own, so a quoted address that could end its
quotes would be a counterexample.

**Histories, replicas and paging** (`ChangeHistory`, `GmailHistory`, `Paging`, `Mailbox`, `MailboxRuns`). Change sets
net a history, and a replica follows them, fetching the changed messages at any later time, as the delta sync tick does.
Gmail's pages are followed over a log that grows, with labels hidden or shown anew between requests.

**Configuration** (`PathNames`, `SettingsTree`, `SettingsLayers`, `SettingsFile`, `SettingsEnvironment`, `SettingsLoad`).
Four layers are written into a tree of sections and keyed maps. Folding case is the Unicode tables', of which what they
say of ASCII is stated.

**Policy** (`TextOrder`, `Quoting`, `Policy`, `Classify`, `PolicyRules`, `PolicyLoad`). Validation, composition,
equality by value, classification, what a sender's verdict says of the rows, and a reload whose reads are made at different instants.

**Host** (`Host`, `HostStarters`). The process's goroutine, its tasks, servers and started goroutines, as steps in any
order.

**Smaller pieces** (`Literal`, `Ceiling`, `Controller`). The code fence against a reader of section 4.5 of CommonMark
0.31.2, the sliding one-second ceiling over an array compacted in place, and the rate controller over reals.

## Where a promise does not hold as stated

- A query over a label misses messages when two labels show the same path, as a user's label named `INBOX` does. The
  search misses nothing exactly when the label maps invert each other (`Query.MissesNothingExactly`,
  `Query.UserLabelNamedInbox`).
- A replica loses a message that one change set both removes and delivers again. However late it fetches, it is in step
  exactly when no identifier's last mention is such a set (`ChangeHistory.InStepExactly`,
  `ChangeHistory.RedeliveredIsLost`, `GmailHistory.PagesInStepExactly`).
- Asking Gmail again from the next cursor skips what remains when a page is empty and others follow it
  (`GmailHistory.NextContinuesExactly`).
- A started goroutine's panic is its component's failure, and a start whose listener or key pair fails returns
  without the panics raised until then (`Host.ErrorIsComplete`, `Host.FailedStartDropsPanics`).
- A hand-over that overlapped one whose write was applied and yet reported failed is lost: its own write misses, the
  loader adopts what the earlier one wrote under a new stamp, and so the loader's own write-back has moved the stamp.
  Rotations under one stamp all land when every step leaves the row to the loader, and the row stays what the loader
  knows exactly then (`WriteBackOverlap.AlignedExactly`, `WriteBackOverlap.OverlappingRotationsLand`,
  `WriteBackOverlap.AppliedFailureLosesNextRotation`).
- A Starter goes on starting goroutines while the host waits for its tasks, and stops when it waits for what was started
  (`Host.StartsExactly`, `Host.StartsWhileTasksRun`).
- Two environment variables can set one value, unnoticed, the one that sorts last winning, when they differ only by a
  Kelvin sign for K or a dotted capital I for I, which are upper case and fold to k and i. A variable sets its value
  exactly when no other under the prefix looks like it so (`PathNames.ReadAlikeExactly`,
  `SettingsEnvironment.VariableSetsItsPath`, `SettingsEnvironment.KelvinSetsAgain`).
- Only segments without two underscores in a row, the last apart none ending in one, decode from a joined name
  (`PathNames.DecodesExactly`); the name alphabet keeps to these and refuses more.
- A name carries no trailing dot, but a rule's suffix that cannot be decoded keeps one, and then compares as written
  (`PolicyRules.WritingIsNothing`, `PolicyRules.UndecodableKeepsItsDot`).
- The stamp is what keeps a replaced credential out: `Persist`, which names none, writes it over the adopted one
  (`LoaderInvariant.OnlyTheStampRefusesAReplacedCredential`).

## Model

| member | source | states |
|---|---|---|
| Sealing.Keyring.Seal | executioncontext/accountload/writeback.go:77-80 | what is sealed opens under the context it was sealed for, and is on the current key |
| Sealing.Keyring.Reseal | executioncontext/accountload/reseal.go:43-79 | a re-sealed value is on the current key and opens to what the old one did |
| AccountLoader.Loader.constructor | executioncontext/accountload/load.go:173-184 | a new loader holds nothing and serves nothing |
| AccountLoader.Loader.AdoptValue | executioncontext/accountload/load.go:345-359 | bytes already known keep what is held, others that open take a stamp never issued before |
| AccountLoader.Loader.LoadSnapshot | executioncontext/accountload/load.go:254-291 | a load replaces the held accounts, clients, scan and snapshot by those of the rows, each account served being its row's and carrying the client its row names or lacking one, and a failed read changes nothing |
| AccountLoader.Loader.PublishHeld | executioncontext/accountload/writeback.go:222-231 | the account's entries of the snapshot carry the credential and stamp, the others are untouched |
| AccountLoader.Loader.PublishNamed | executioncontext/accountload/writeback.go:190-201 | the account's entries take the re-read client and nothing else |
| AccountLoader.Loader.ReadoptValue | executioncontext/accountload/writeback.go:203-214 | a value just read is adopted and published, or the account dropped |
| AccountLoader.Loader.PersistRotation | executioncontext/accountload/writeback.go:64-95 | the rotated credential is held before the write, known once it lands, and stays held when the write fails |
| AccountLoader.Loader.HandOverCredential | executioncontext/accountload/writeback.go:54-61 | a stale stamp changes nothing and returns what is held; any other hands over as persist does |
| AccountLoader.Loader.RereadAccountRow | executioncontext/accountload/writeback.go:125-163 | a re-read adopts the row and returns the account with the client the listing names, if its row opens, and a failed read changes nothing |
| AccountLoader.Loader.ResealAccounts | executioncontext/accountload/reseal.go:43-79 | re-sealing in any order leaves the state the per-account steps compose to |
| AccountLoader.Loader.ResealAccount | executioncontext/accountload/reseal.go:48-76 | a landed re-seal changes the known bytes alone, a missed one adopts what the row holds |
| AccountLoader.Loader.ResealClientSecrets | executioncontext/accountload/reseal.go:93-126 | the same for the client secrets |
| AccountLoader.Loader.RereadClientSecret | executioncontext/accountload/reseal.go:128-161 | every account that names the client carries it from its row just read, or lacks it, and no other account changes; what is known and scanned of it follows |
| LoaderInvariant.HandOverKeepsInv | executioncontext/accountload/writeback.go:54-95 | whatever the database answers, after a hand-over the known bytes open to the baseline and each published account carries exactly what is held |
| LoaderInvariant.RereadKeepsInv | executioncontext/accountload/writeback.go:125-163 | a re-read keeps that |
| LoaderInvariant.LoadKeepsInv | executioncontext/accountload/load.go:254-291 | a load keeps that, and makes of every row exactly what it should: kept, adopted under a new stamp, or not held |
| LoaderInvariant.ResealKeepsInv | executioncontext/accountload/reseal.go:43-79 | a re-seal keeps that |
| LoaderInvariant.ResealClientsKeepsInv | executioncontext/accountload/reseal.go:93-126 | re-sealing clients keeps that and touches no held credential |
| LoaderInvariant.HeldSurvivesLoad | executioncontext/accountload/load.go:254-291 | while the row holds the known bytes, a reload keeps and serves what is held, an unwritten rotation included |
| LoaderInvariant.HeldSurvivesReread | executioncontext/accountload/writeback.go:125-163 | so does a re-read of the account or of any other |
| LoaderInvariant.HeldSurvivesReseal | executioncontext/accountload/reseal.go:43-79 | so does a re-seal of any account |
| LoaderInvariant.HeldSurvivesUnrotatedHandOver | executioncontext/accountload/writeback.go:72-74 | handing over the credential the row holds disturbs no newer rotation |
| LoaderInvariant.OnlyTheStampRefusesAReplacedCredential | executioncontext/accountload/writeback.go:38-61 | HandOver discards a unit's credential taken before the adoption, and Persist writes it |
| LoaderPairs.LoadPairs | executioncontext/accountload/load.go:303-334 | over the client rows and what the keyring opens alone: a served account is its row's, and has a client if and only if its row names one with a row that opens under that name; it is then that row's name, provider, identifier and opened secret, the last such row's, and otherwise the account is without a client exactly when its provider authenticates through one |
| LoaderPairs.ConnectedExactly | executioncontext/accountload/load.go:65-78 | an account served is connected if and only if what is held for it is not empty and, where its provider needs a client, its row names one whose secret opens |
| LoaderPairs.LoadScans | executioncontext/accountload/load.go:260-289 | the client secrets known are those of the last opening rows, and the scan reads true of exactly the accounts and clients whose value does not open or is on an old key |
| LoaderPairs.RereadPairs | executioncontext/accountload/writeback.go:125-214 | the account a re-read returns has the listing's provider and client name, or those it was served with; it has a client if and only if the first row of that name opens, and then that row's; its credential and stamp are what a load of the row would hold, its entries take the client, and no other account changes |
| LoaderPairs.RereadClientPairs | executioncontext/accountload/reseal.go:128-161 | the same of every account that names a client read again, with what is known and scanned of the client |
| LoaderPairs.HandOverReplies | executioncontext/accountload/writeback.go:54-102 | what a hand-over replies and leaves held: stale, empty, unrotated, failed, landed and missed, over the row just read; no pairing, client or scan entry changes |
| LoaderPairs.ResealLands | executioncontext/accountload/reseal.go:48-76 | a re-seal that lands leaves the value on the current key, opening to what it did, its scan entry false, and all else as it was |
| LoaderPairs.ResealMisses | executioncontext/accountload/reseal.go:60-67 | one that misses takes what the row holds as a load would, and its scan entry says whether that does not open or is on an old key |
| LoaderPairs.ResealWritesNothing | executioncontext/accountload/reseal.go:48-75 | one that cannot seal or write, or whose value is on the current key, changes nothing |
| LoaderPairs.ClientResealLands | executioncontext/accountload/reseal.go:95-119 | the same of a client secret that lands |
| LoaderPairs.ClientResealMisses | executioncontext/accountload/reseal.go:95-119 | one that misses is the client read again, and any other changes nothing |
| AccountSession.CredentialsOf | executioncontext/session/session.go:139-147 | a source is built with the identifier and secret of the client the account carries, none when it carries none, and its credential |
| AccountSession.LoadedCredentials | executioncontext/session/session.go:139-147 | so for an account a load serves, those are its client row's identifier and that row's secret opened |
| AccountSession.ServesExactly | executioncontext/session/session.go:191-203 | a source serves the credentials it was built from, or those with the credential it now holds, and no others |
| AccountSession.Holder.SourceFor | executioncontext/session/session.go:193-209 | a kept source is reused exactly when it serves the credentials, and otherwise a new one is built and kept; either way it authenticates through their client |
| AccountSession.Holder.Open | executioncontext/session/session.go:173-190 | a session opens exactly for a connected account with a connector whose port builds, with the snapshot's stamp, and a new source is kept even when the port does not build |
| AccountSession.Session.Call | executioncontext/session/session.go:243-272 | a refused call is retried once, over a pair other than the refused one, and source, credentials and stamp change together or not at all |
| AccountSession.Session.End | executioncontext/session/session.go:274-277 | the source's credential is handed over with the stamp it came with |
| WriteBackSteps.HandOverComposes | executioncontext/accountload/writeback.go:54-115 | whatever falls between its transactions, a hand-over does what HandOver does in one call, at once when it writes nothing and otherwise with the report and the row it met |
| WriteBackSteps.ResealComposes | executioncontext/accountload/reseal.go:48-76 | so does a re-seal of one account, whether or not it writes |
| WriteBackSteps.ClientResealComposes | executioncontext/accountload/reseal.go:93-161 | so does a re-seal of one client secret |
| WriteBackSafety.RunKeepsInv | executioncontext/accountload/writeback.go:38-231 | the protocol's invariant holds over every interleaving of its transactions with the world outside |
| WriteBackSafety.EveryRowIsCurrent | executioncontext/accountload/writeback.go:42-61 | in every run each row opens to a credential of its last outside store, and each published account carries what is held |
| WriteBackSafety.WrittenDescendsFromOverwritten | executioncontext/accountload/writeback.go:72-89 | a write that lands overwrites a credential of the lineage it writes |
| WriteBackSafety.NoHandOverPutsBack | executioncontext/accountload/writeback.go:54-61 | after an outside store, no hand-over that reaches the row writes a credential descending from one the account had before it |
| WriteBackSafety.RotationSurvives | executioncontext/accountload/writeback.go:75-103 | over any run in which the row keeps the known bytes, a rotation held is served under its stamp until another that is not stale is handed over |
| WriteBackOverlap.AlignedExactly | executioncontext/accountload/writeback.go:50-61 | over any run of the protocol the row stays what the loader knows, under one stamp, if and only if every step leaves the row to the loader |
| WriteBackOverlap.OverlappingRotationsLand | executioncontext/accountload/writeback.go:50-61 | then, whatever else the run interleaves, no hand-over under the stamp is stale, a write under way cannot miss, and every rotation handed over lands |
| WriteBackOverlap.UnwrittenRotationLands | executioncontext/accountload/writeback.go:34-37 | a rotation whose write failed is still held after any run in which the row keeps the known bytes, and the next hand-over of it is written and lands |
| WriteBackOverlap.AppliedFailureLosesNextRotation | executioncontext/accountload/writeback.go:50-61 | after a write that was applied and reported failed, the next rotation is neither written nor held, and the stamp has moved |
| AhoCorasickBuild.Build | core/scan/automaton.go:32-71 | for non-empty words the automaton is a trie whose failure links are longest proper suffixes and whose outputs are all words ending there |
| AhoCorasickBuild.BuildTrie | core/scan/automaton.go:33-50 | every folded word is spelled, and each node lists the words it spells |
| AhoCorasickBuild.Link | core/scan/automaton.go:51-69 | the breadth-first pass links every node and merges its failure's outputs |
| AhoCorasickBuild.FindFailure | core/scan/automaton.go:59-65 | following the parent's failures ends at the child's longest proper suffix in the trie |
| AhoCorasick.Step | core/scan/automaton.go:79-83 | one byte moves to the longest suffix in the trie, each failure step paid for by depth |
| AhoCorasick.Report | core/scan/automaton.go:84-89 | the words of the node reached are added, bounded ones only on word boundaries |
| AhoCorasick.Find | core/scan/automaton.go:75-92 | exactly the folded occurrences are reported, each once, in the order they end, in at most as many failure steps as the text has bytes |
| DetectRules.OccursExactly | core/scan/automaton.go:24-29 | a word occurs exactly where each byte of the text is the word's or its other ASCII case |
| Utf8.LastRuneIsPrevious | core/scan/automaton.go:97-114 | the character decoded backwards from a boundary of valid text is the one before it |
| Utf8.DecodesEncoded | core/scan/automaton.go:94-114 | decoding reads back every character UTF-8 can encode, whatever follows |
| Utf8.EncodesDecoded | core/scan/automaton.go:94-114 | what decodes as valid is some character's encoding |
| DetectRules.BoundariesExactly | core/scan/automaton.go:94-114 | a word boundary is where no word character comes next, and where the character before is none |
| Tokens.Tokenize | core/scan/detect.go:117-137 | the tokens are the maximal runs of word characters, apart and on character boundaries |
| Tokens.TokenAt | core/scan/detect.go:139-141 | the binary search returns the first token that ends after an offset |
| Tokens.TokenIndexHolds | core/scan/detect.go:139-141 | an offset inside a token has that token's index |
| Tokens.Near | core/scan/detect.go:145-153 | the search over sorted triggers says whether one other than the token lies within the window |
| Tokens.DigitRuns | core/scan/detect.go:170-199 | the loop returns what the greedy parse from each start gives, which DigitGroups.FoundExactly says without it |
| Tokens.RunsAreRuns | core/scan/detect.go:168-199 | the runs ascend, are apart, hold 4 to 8 digits, and have a digit and a word boundary at either end |
| DigitGroups.ParseIsLongest | core/scan/detect.go:157-193 | from a digit, the parse ends where the longest digits grouped from there do: groups of at least 3, each after exactly one of the five separators, or one group of any length |
| DigitGroups.SeparatorsAreCharacters | core/scan/detect.go:157-166 | the separators are the UTF-8 of space, hyphen, no-break, narrow no-break and thin space |
| DigitGroups.StandingRunsAreFound | core/scan/detect.go:168-199 | digits so grouped that nothing extends, 4 to 8 of them, between word boundaries, are returned unless digits grouped from an earlier start reach over them, whatever is a word character |
| DigitGroups.FoundExactly | core/scan/detect.go:168-199 | the runs returned are exactly those, digits being word characters |
| Detect.TriggerTokens | core/scan/detect.go:46-51 | the trigger indexes are sorted and are exactly the tokens where a bounded occurrence of a trigger starts |
| Detect.TriggerSpans | core/scan/detect.go:56-60 | exactly the digit runs with a trigger starting in another token at most the window away |
| Detect.Lines | core/scan/detect.go:211-238 | the lines, in bounds, are those of reading the text to each line feed, a carriage return before it dropped |
| DetectRules.LinesExactly | core/scan/detect.go:210-238 | a text's lines are exactly what stands between its line feeds, a carriage return before one dropped |
| DetectRules.LineRuleExactly | core/scan/detect.go:245-260 | a run fires the rule for its own line if and only if all around it is spaces, tabs and marks, and otherwise the other rule if and only if the line is a heading or the run alone fills a cell of a table row |
| DetectRules.UrlEndExactly | core/scan/detect.go:74-94 | a URL ends before the run of sentence marks it ends in |
| Detect.InCell | core/scan/detect.go:253-260 | the binary search over pipes says whether the run alone fills the cell around it |
| Detect.LineSpans | core/scan/detect.go:61-73 | exactly the runs alone on a line, in a heading or filling a cell, each under its line's rule |
| Detect.MarkCovered | core/scan/detect.go:74-90 | a byte is covered exactly when a tier 1 span or a URL without trailing marks holds it |
| Detect.LinkSpans | core/scan/detect.go:88-94 | one span for each URL and each rule its link fires |
| Detect.ScoreSpans | core/scan/detect.go:95-108 | exactly the candidate tokens that no code or URL touches and that score the threshold, and tier 2 exactly when there was one to score |
| Detect.Detect | core/scan/detect.go:45-111 | the spans found are exactly those of the trigger window, the lines, the links and, unless patterns alone are scanned, the scores, each once, on character boundaries, in the order they start |
| Detect.ScoredAvoidsCodes | core/scan/detect.go:74-108 | no scored token touches a code |
| Masking.HideSpans | core/redact/masking.go:57-64 | a byte is hidden exactly when a span covers it, and each span leaves one event |
| Masking.WriteMasked | core/redact/masking.go:65-78 | the byte loop writes what the character-wise definition writes |
| Masking.MaskIsFullBlock | core/redact/masking.go:48-79 | what is written over a hidden character is the UTF-8 of the full block |
| Masking.WritesMaskedChars | core/redact/masking.go:65-78 | when whole characters are hidden, the characters written are the text's, each masked or as it was |
| Masking.MaskSubject | core/redact/masking.go:48-79 | as many characters as before, a block exactly where a detected span of either tier covers and the original elsewhere, one event for each; an unbuilt scanner masks everything |
| SearchText.TermReads | provider/gmail/query.go:38-53 | a written term is read back, whether it ends the text or more follow |
| SearchText.TextMeansItsTerms | provider/gmail/query.go:23-32 | a text of quotable terms joined by spaces means exactly those terms |
| Labels.NewLabelTable | provider/gmail/model.go:43-65 | the loop builds the table that Labels.TableHoldsLast describes |
| Labels.TableHoldsLast | provider/gmail/model.go:43-65 | an identifier leads to where its last shown label is shown, a path to the last label shown there, and what is hidden is every other system label but the two flags |
| Labels.TableKeeps | provider/gmail/model.go:35-65 | each map holds only what some label shows, every shown path has an identifier, and the hidden identifiers are the hidden labels' |
| Labels.DistinctPathsInvert | provider/gmail/model.go:43-65 | the maps invert each other when no two labels show the same path |
| Labels.Metadata | provider/gmail/model.go:151-181 | read exactly without UNREAD, starred exactly with STARRED, and the labels are those of the identifiers that lead to one, in order and as often |
| Labels.ShownExactly | provider/gmail/model.go:167-178 | a message shows exactly the paths of its identifiers, the flag identifiers apart |
| Query.FloorSeconds | provider/gmail/query.go:87-93 | rounds down, negative instants included, from a truncating division |
| Query.CeilSeconds | provider/gmail/query.go:95-101 | rounds up, likewise |
| Query.ValidIsBuilt | core/mail/query.go:81-105 | every query a port accepts compiles |
| Query.MatchesLeaves | provider/gmail/query.go:103-126 | however it is nested, a query selects exactly what all its leaves do: dates from an instant on or before one, a label carried, a sender alike |
| Query.Search.CompileNode | provider/gmail/query.go:34-64 | appends the node's terms, adds its label identifiers once each, and is none exactly when a path is missing; a node no constructor built is refused |
| Query.ResolvesOnce | provider/gmail/query.go:43-49 | no label identifier is searched for twice |
| Query.CompileQuery | provider/gmail/query.go:23-32 | the compiled text, identifiers and none, or a refusal |
| Query.Selected | provider/gmail/query.go:128-137 | exactly the threads with a message the query selects, in their order and as often as given |
| Query.EitherBoundIsDependable | provider/gmail/query.go:16-64 | inclusive and exclusive bounds both give all that is relied on |
| Query.MarginIsExact | provider/gmail/query.go:37-40 | no closer bound would be safe for an exclusive engine |
| Query.SelectedIsListed | provider/gmail/query.go:12-137 | every message the filter selects is one the search lists |
| Query.MissesNothingExactly | provider/gmail/query.go:16-64 | for every valid query, message and dependable engine, if and only if the label maps invert each other |
| Query.UserLabelNamedInbox | provider/gmail/model.go:43-65 | a user's label named as a system label breaks the inversion |
| Query.ListedIsNear | provider/gmail/query.go:34-64 | what the search lists matches the query with bounds three seconds wider and unquotable senders dropped |
| Query.FilteredListingIsExact | provider/gmail/query.go:128-137 | filtering whatever part of the mailbox was listed, if it holds the search's threads, gives exactly the mailbox's threads with a selected message, in order |
| Query.NoneSelectsNothing | provider/gmail/query.go:12-49 | when no listing is sent, nothing would have been selected |
| ChangeHistory.Notes.Note | provider/gmail/model.go:439-444 | identifiers are kept in first-noted order with every kind noted |
| ChangeHistory.Notes.Settle | provider/gmail/model.go:466-475 | the lists are the netted history |
| ChangeHistory.NetChanges | provider/fake/fake.go:392-412 | the same for the mailbox's own history |
| ChangeHistory.NetSorts | core/mail/model.go:137-146 | what a history removes is with the removed, what it adds and does not remove with the added, what it only modifies with the modified, each once and in no other list |
| ChangeHistory.NetInOrder | provider/gmail/model.go:466-475 | each list keeps the order its identifiers are first mentioned in |
| ChangeHistory.FollowerInStep | worker/internal/deltasync/tick/tick.go:135-174 | a replica that followed the whole history, cut anywhere and fetched from however late, holds exactly the mailbox's identifiers when none is delivered again after removal |
| ChangeHistory.InStepExactly | worker/internal/deltasync/tick/tick.go:135-174 | of any history, cut anywhere and fetched from however late, the replica ends in step if and only if no identifier's last mention is a set that removed it and delivered it again |
| ChangeHistory.RedeliveredIsLost | provider/fake/fake.go:402-412 | a message removed and delivered again in one change set is lost, and cut between the two it is not |
| GmailHistory.Changes | provider/gmail/model.go:436-477 | over the page's records: removed is what some record deletes, added what one adds and none deletes, modified what none adds or deletes and some record changes a label of that is not hidden; and the next cursor |
| GmailHistory.NextContinuesExactly | provider/gmail/model.go:461-464 | the next cursor continues right after the page if and only if the page has a record or none follows |
| GmailHistory.EveryRecordOnce | provider/gmail/model.go:432-464 | over a growing log the pages received and what is still to come are every record since the start, once and in order |
| GmailHistory.PagesInStepExactly | provider/gmail/model.go:432-477 | over a log that grows, pages followed to its end leave a replica holding what the log's records leave, if and only if no identifier's last mention is a page that deletes it and adds it again |
| GmailHistory.PagesFollowInStep | provider/gmail/model.go:432-477 | so it does when no record adds what an earlier one deleted |
| Mailbox.Fake.Seed | provider/fake/fake.go:114-118 | a starting message is inserted without history |
| Mailbox.Fake.Insert | provider/fake/fake.go:154-180 | an unnamed, threadless or held message is refused, any other takes the next number |
| Mailbox.Fake.Deliver | provider/fake/fake.go:122-131 | a delivery inserts and notes it, and the history still replays to what is held |
| Mailbox.Fake.Remove | provider/fake/fake.go:133-144 | a removal drops the message and notes it, and the history still replays to what is held |
| Mailbox.Fake.Apply | provider/fake/fake.go:330-361 | each verb's new labels and flags, its refusals, and a modified note exactly when they differ |
| Mailbox.RelabelledExactly | provider/fake/fake.go:363-369 | the label added is carried, the one removed is not unless added, the others stay |
| Mailbox.RelabelledInOrder | provider/fake/fake.go:363-369 | labels kept stay in order and one added comes last |
| Mailbox.VerbsMove | provider/fake/fake.go:341-356 | each verb moves a message between inbox, trash and spam or between the labels it names, or marks it read or starred, and leaves all else |
| Mailbox.Fake.ExpireCursors | provider/fake/fake.go:146-152 | the horizon moves to the history's end |
| Mailbox.Fake.ChangesSince | provider/fake/fake.go:381-413 | the netted changes after the cursor, and a gap exactly before the horizon or past the history |
| Mailbox.Fake.Ordered | provider/fake/fake.go:461-469 | exactly the stored messages, by number |
| Mailbox.Fake.EnumerateAll | provider/fake/fake.go:417-443 | the page of a token, and a token that is no positive number refused |
| Paging.TokensAscend | provider/fake/fake.go:429-438 | each token is greater than the last |
| Paging.NoneTwice | provider/fake/fake.go:417-443 | no stored message is returned twice, and each was stored when its page was taken |
| Paging.PresentThroughoutOnce | provider/fake/fake.go:417-443 | followed to the end, the pages return every message stored throughout exactly once, whatever is edited between them |
| MailboxRuns.NumbersNeverReused | provider/fake/fake.go:154-180 | over any deliveries, removals and changes, a number once issued is held for its message alone, and for none once that is gone |
| MailboxRuns.EnumeratedOnce | provider/fake/fake.go:417-443 | enumerating a mailbox that is edited between the pages returns every message present throughout exactly once |
| PathNames.DecodesExactly | process/settings/declaration.go:206-215 | a joined path splits back into itself if and only if every separator shows only where it was put |
| PathNames.TrailingUnderscoreDecodesWrongly | process/settings/declaration.go:206-215 | a segment ending in an underscore is read as the next one starting with it |
| PathNames.EnvironmentNameDecodes | process/settings/settings.go:317-326 | a path of names has an upper-case ASCII environment name that reads back as that path |
| PathNames.NoTwoPathsShareAName | process/settings/settings.go:525-527 | distinct paths have distinct environment names |
| PathNames.ReadAlikeExactly | process/settings/settings.go:305-326 | upper-case variables that read as a path of names read as the same one if and only if they differ in nothing but a Kelvin sign for K or a dotted capital I for I |
| PathNames.NoTwoNamesReadAlike | process/settings/settings.go:305-326 | so distinct ASCII variables are read as distinct paths |
| PathNames.DottedIsOneToOne | process/settings/settings.go:186-193 | a dotted path splits back into its path, and distinct paths have distinct dotted forms |
| SettingsTree.ReadAfterSet | process/settings/settings.go:454-495 | a write is read back at its path and changes no other value |
| SettingsTree.HeldAfterSet | process/settings/settings.go:467-477 | a path is there after a write if and only if it was before or the write passed its last map key |
| SettingsTree.LastAssignmentWins | process/settings/settings.go:178-187 | each value and source is the last assignment's to it |
| SettingsTree.HeldExactly | process/settings/settings.go:125-133 | a map entry exists if and only if some assignment passes it |
| SettingsTree.LayersOutweigh | process/settings/settings.go:154-176 | a flag outweighs the environment, the environment the file, the file the defaults |
| SettingsTree.CompleteExactly | process/settings/settings.go:497-523 | the check passes if and only if every required value of every section and named entry was set by a layer |
| SettingsLayers.CollectDefaults | process/settings/settings.go:208-243 | exactly the values and entries the defaults hold are assigned, required ones left out, and it is refused exactly for a required value with a default or a key that is no name |
| SettingsFile.CollectFile | process/settings/settings.go:265-296 | exactly the values and entries the file names, each with its line, refused exactly for a key that is no name |
| SettingsEnvironment.ResolvesExactly | process/settings/settings.go:371-393 | a path resolves if and only if it names a declared value through names |
| SettingsEnvironment.ReadVariable | process/settings/settings.go:305-331 | one variable is skipped, names the file, sets its path's value or is refused |
| SettingsEnvironment.ReadEnvironment | process/settings/settings.go:298-334 | accepted if and only if every variable under the prefix is acceptable and set once, and then each value reads as the last variable of its path, in sorted order, sets it |
| SettingsEnvironment.EntryNamesFile | process/settings/settings.go:300-334 | of an acceptable environment, the file is the one its entry for it names |
| SettingsEnvironment.VariableSetsItsPath | process/settings/settings.go:303-331 | a declared value's variable sets that value if and only if no other variable looks like it |
| SettingsEnvironment.KelvinSetsAgain | process/settings/settings.go:303-331 | a variable and its lookalike are both accepted, and the lookalike sets the value |
| SettingsLoad.CheckRequired | process/settings/settings.go:497-523 | none missing if and only if every required value that is there has a source, else one that has none |
| SettingsLoad.Assign | process/settings/settings.go:178-187 | the tree and sources are those of the assignments in order |
| SettingsLoad.ReadValues | process/settings/settings.go:192-195 | each recorded path is listed with its source and the value read back at it |
| SettingsLoad.EntriesNamed | process/settings/settings.go:125-133 | a map entry exists if and only if the defaults hold it, the file names it or the path of a value some layer decides passes it |
| SettingsLoad.FlagsFileWins | process/settings/settings.go:156-172 | the file read is the one a flag names, or else the one the environment's entry names, or none |
| SettingsLoad.Load | process/settings/settings.go:135-206 | it succeeds if and only if every layer can be read and a layer decides every value demanded; then every value reads as the outermost layer that set it decided, its source listed, and exactly the entries named exist; otherwise with every layer read the error names a value demanded and not decided |
| SettingsLoad.DefaultsRoundTrip | process/settings/settings.go:208-243 | what is loaded from accepted defaults alone reads as the defaults do |
| TextOrder.SortedIsCanonical | core/policy/policy.go:114-124 | two lists sort alike if and only if they hold the same texts |
| Quoting.QuoteDelimits | core/policy/policy.go:120-120 | a quoted text says where it ends and what it quotes, whatever follows |
| Policy.Validate | core/policy/policy.go:172-205 | every problem of every row is found and no other, in row order |
| Policy.NoProblemExactly | core/policy/policy.go:172-205 | no problem if and only if every row is valid and no scope repeats an identifier |
| PolicyRules.ValidSuffixExactly | core/policy/policy.go:245-264 | a suffix is valid if and only if it holds only label characters and dots, none at an end and no two together |
| Policy.Build | core/policy/policy.go:231-242 | the base is the rows that name no account and each overlay its account's, each rule with its row's identifier and all its suffixes, in order |
| Policy.Load | core/policy/policy.go:225-243 | the snapshot of the rows, and no problems exactly for valid ones |
| Policy.Swap | core/policy/policy.go:278-287 | a valid update becomes active, an invalid one leaves the active snapshot |
| PolicyRules.NormalFromRows | core/policy/policy.go:126-133 | of a snapshot built from rows, a sender is normal for an account if and only if its name can be read and no row naming no account, or that one, has a suffix whose name the sender is under |
| Policy.Canonical | core/policy/policy.go:114-124 | the sorted entries of the rules |
| Policy.EntryDecides | core/policy/policy.go:118-121 | two rules are written alike if and only if identifier and multiset of suffixes agree |
| Policy.Equal | core/policy/policy.go:103-112 | equal if and only if both restrict everyone, or both are loaded with the same rules in any order |
| Policy.ValidIsComposable | core/policy/policy.go:126-133 | every policy composed from valid rows meets what equality relies on |
| Classify.UnderIsLabels | core/classify/classify.go:202-205 | a name is under a suffix if and only if the suffix's labels are its last labels |
| Classify.Prepare | core/classify/classify.go:126-140 | every suffix of every rule is held as its name, in order |
| Classify.Classify | core/classify/classify.go:145-167 | normal if and only if a policy is loaded, the sender can be read and no rule matches; a listed verdict names the first that does |
| PolicyRules.SenderReadExactly | core/classify/classify.go:174-190 | an address is read as the domain after its last at sign, without one trailing dot, in lower-case Unicode, if and only if all three lookups know it |
| PolicyRules.WritingIsNothing | core/classify/classify.go:192-219 | case and a trailing dot make no difference to a domain's name, nor to a suffix's that can be decoded |
| PolicyRules.SendersWrittenAlike | core/classify/classify.go:145-167 | so addresses at one domain, however written, meet one verdict under every policy |
| PolicyRules.RulesWrittenAlike | core/classify/classify.go:192-205 | and rules whose suffixes are the same domains, however written, restrict the same senders |
| PolicyRules.UndecodableKeepsItsDot | core/classify/classify.go:192-200 | of a suffix that cannot be decoded a trailing dot makes no difference if and only if lower-casing loses it |
| Classify.MoreRulesRestrictMore | core/classify/classify.go:145-167 | adding rules or suffixes makes no restricted sender normal |
| Classify.OverlayOnlyRestricts | core/policy/policy.go:126-133 | what base and overlay together find normal, the base with any part of the overlay does |
| PolicyLoad.ReadableIsEach | executioncontext/policyload/load.go:129-138 | the accounts read are those given, each once |
| PolicyLoad.SplitKeepsRows | executioncontext/policyload/load.go:203-221 | the base rows and the account's own are each exactly the rows that are, in order, in every field |
| PolicyLoad.Read | executioncontext/policyload/load.go:189-223 | rows if and only if every account's transaction returned and all returned one base, torn exactly when a later account's base differs |
| PolicyLoad.RowsReadExactly | executioncontext/policyload/load.go:192-223 | the rows a trusted read gives are exactly those the accounts' transactions returned |
| PolicyLoad.ComposesOneRead | executioncontext/policyload/load.go:161-187 | each account's policy is exactly what its own transaction returned |
| PolicyLoad.NormalFromRead | executioncontext/policyload/load.go:156-187 | of a policy swapped in, a sender is normal if and only if its name can be read and no row the account's transaction returned has a suffix whose name the sender is under |
| PolicyLoad.Loader.SetAccounts | executioncontext/policyload/load.go:114-127 | the accounts change from the next reload on, the active policies stay |
| PolicyLoad.Loader.Reload | executioncontext/policyload/load.go:156-187 | swaps in for each account the rules of one transaction's rows, each with its identifier, all its suffixes and its scope, every account's being one and the same base and then its own, or changes nothing; cancelled keeps the alarm as it was |
| PolicyLoad.UnreadRestrictsEveryone | executioncontext/policyload/load.go:74-80 | an account never read has every sender restricted |
| HostStarters.Process.Start | process/host/host.go:403-424 | starts a goroutine, or once joining starts nothing and says so |
| HostStarters.Process.Returned | process/host/host.go:410-421 | a goroutine that returns has nothing to report |
| HostStarters.Process.Panicked | process/host/host.go:410-421 | one that panics has its failure to record |
| HostStarters.Process.StartedFailed | process/host/host.go:426-434 | the failure is recorded and the channel, open until then, closed on the first |
| HostStarters.Process.BeginJoin | process/host/host.go:436-440 | joining is set |
| HostStarters.Process.OpenPool | process/host/host.go:386-401 | a pool that opens is kept to be closed, one that does not is not |
| HostStarters.Process.ClosePools | process/host/host.go:461-471 | every open pool is closed once |
| HostStarters.Drain | process/host/host.go:626-638 | what waits in the channel is received in order, which leaves the result that receiving one at a time does |
| Host.RunsKeep | process/host/host.go:317-340 | the host's invariant holds over every interleaving |
| Host.NothingStartsOnceJoining | process/host/host.go:333-340 | once the host waits for what was started, no goroutine is started, whoever asks |
| Host.StartsExactly | process/host/host.go:402-440 | a starter starts a goroutine if and only if the host has not begun to wait for what was started |
| Host.StartsWhileTasksRun | process/host/host.go:164-169 | a run in which it starts one while the host waits for a task |
| Host.PoolsCloseLast | process/host/host.go:500-507 | pools are closed only after every launched task and started goroutine has returned and reported |
| Host.ChannelClosesOnce | process/host/host.go:426-434 | the failed channel closes at most once, and exactly when there is a failure |
| Host.NoSendBlocks | process/host/host.go:555-577 | no task or server ever blocks reporting how it ended |
| Host.ErrorIsComplete | process/host/host.go:582-599 | a run that served returns every task's failure and every started goroutine's panic |
| Host.ResultIsRaised | process/host/host.go:582-599 | and nothing that was not raised |
| Host.FailedStartDropsPanics | process/host/host.go:249-260 | a start whose listener or key pair fails can drop a panic |
| Literal.LongestRun | content/markdown/literal.go:16-24 | the length of the longest run of backticks |
| Literal.Literal | content/markdown/literal.go:8-36 | reading the fence gives back exactly the text, with a final line feed when it lacks one, closed by the last line, the fence no longer than needed |
| Literal.ReadsBack | content/markdown/literal.go:8-36 | any fence of three or more backticks the text has no run of reads back what it encloses |
| Ceiling.Window.Compact | provider/fake/throttle.go:56-64 | the buffer is compacted in place to what is less than a second old, with its weight |
| Ceiling.Window.Admit | provider/fake/throttle.go:49-71 | a call is let through if and only if no half-open second would then hold more than the ceiling |
| Ceiling.NoWindowExceeds | provider/fake/throttle.go:44-71 | over every run no half-open second holds more than the ceiling |
| Ceiling.AdmitEach | provider/fake/throttle.go:44-71 | from a new window on, any run of calls at times that never go back is answered each by whether there is room, and no half-open second lets through more than the ceiling |
| Ceiling.RecentOfRecent | provider/fake/throttle.go:56-64 | what an earlier call dropped could not have counted later |
| Controller.LimitsInRange | ratelimit/core/limits.go:70-82 | a positive ceiling fixes a floor of a twentieth of it, below the target, and the target at most half the ceiling |
| Controller.AddSaturating | ratelimit/core/limits.go:97-107 | the sum, held at the 64-bit limits |
| Controller.Jitter | ratelimit/core/controller.go:87-99 | the doubling loop gives the draw's share of the bound |
| Controller.JitterBounds | ratelimit/core/controller.go:87-99 | the bounds are 1, 2, 4, 8, 16 and then 32 seconds |
| Controller.JitterWithin | ratelimit/core/controller.go:87-99 | never more than a second doubled per throttle, nor than 32 seconds |
| Controller.RateWithin | ratelimit/core/controller.go:35-85 | after any outcome the rate lies between floor and target |
| Controller.FailuresLower | ratelimit/core/controller.go:46-85 | a throttle halves the rate, a server error leaves 80% and a slow window 90%, never below the floor, and any other window leaves it |
| Controller.FailuresCompound | ratelimit/core/controller.go:46-85 | over any run without a success the rate is the one it began with times every failure's share, held at the floor |
| Controller.ThrottlesAreCounted | ratelimit/core/controller.go:35-64 | the throttles counted are those since the last success |
| Controller.BackoffNeverEndsSooner | ratelimit/core/controller.go:46-64 | over any run the backoff never moves back |
| Controller.RetryAfterHonoured | ratelimit/core/controller.go:46-64 | every positive retry-after is waited for in full, whatever follows |
| Controller.BackoffIsBounded | ratelimit/core/controller.go:50-64 | a throttle without one waits its share of the jitter bound and no longer than the bound |
| Controller.GrowthIsBounded | ratelimit/core/controller.go:35-44 | successes of total cost W raise a rate r by at most 2% of the target times W over r, and its square by at least 4% of the target times W, up to the target |

## Left out

- Sealing.Keyring.Seal: the cryptography is symbolic, so a value opens exactly under its key and context.
- WriteBackSafety.NoHandOverPutsBack: is about HandOver only, since Persist names no stamp; a re-read's credential and listing are two transactions, and no claim is made that the pair is of one instant; a session may go on with any offered credentials, which is more than Call allows.
- AccountLoader.Loader.LoadSnapshot: rows and clients arrive read, and an empty credential stands for a nil one; looking an account up is a first match rather than a binary search.
- Detect.Detect: URLs, link rules, entropy and scores, the letter tables and the tables of words are parameters, URLs apart from one another and a link breaking a rule once; the order of spans that start together is not stated.
- AccountSession.Session.End: recording the authentication attempt on the way out is left out.
- DigitGroups.StandingRunsAreFound: a run inside digits grouped from an earlier start is not retried, as in the source.
- PolicyRules.SendersWrittenAlike: that the lookups read a domain alike however it is cased is what they promise, so it is a precondition.
- Query.Selected: grouping messages into threads and sorting them is not modelled, nor is the fake's ListThreads paging, whose token is sound only when each thread's oldest message arrived first.
- ChangeHistory.FollowerInStep: a replica is its identifiers; the metadata it keeps of each is not modelled.
- Labels.Metadata: headers, addresses and attachments are not modelled.
- SearchText.TextMeansItsTerms: the reader stands for Gmail's, of which only the two forms written are known.
- Mailbox.Fake.ChangesSince: cursors and page tokens are numbers, their one-letter prefixes left out.
- SettingsLoad.Load: reading flags, YAML decoding, boolean spelling and the sections' revisions are left out, flags arriving as assignments; which of several missing required values is reported is not fixed.
- SettingsEnvironment.ReadEnvironment: names and texts are characters, so an environment that is not valid UTF-8 is not modelled.
- SettingsTree.SetAt: builds the new tree where the source writes into it through reflection, so aliasing is not modelled.
- Declaring a type by reflection, inline sections included: the model starts from the declared tree.
- Policy.Validate: the wording of problems, and which characters are letters, marks or spaces.
- Classify.Classify: domain functions and lower-casing are parameters; trimming, mapping and public suffixes are theirs.
- Host.ErrorIsComplete: HTTP requests are told to stop and not joined, so nothing is said of them, nor of contexts, the readiness answer and the drain's timeout; a failure of the probe server while it shuts down may come after the result.
- HostStarters.Process.BeginJoin: waiting is a step of the state machine, not of the method.
- Literal.Literal: CommonMark replaces the null character when it reads a document, which the reader does not; LiteralBody's size bound is left out.
- Controller.GrowthIsBounded: floating point is modelled as reals, so rounding, infinities and values that are not numbers are left out, and so are lease issuance and the stored form of limits.
- HTTP servers, TLS, probes, metrics, logging, banners and help text.
- The small decision tables: authorization, the scan gate, the redaction decision, attachment types.
