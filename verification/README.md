# Verification of the App Store subsystem and its decision cores

This project models the part of the control plane that decides which applications an installation
offers, trusts and installs, and a few decisions that sit beside it. Each module follows one or two
source files; code that changes state step by step is a class or a loop proved against a
specification function, and the properties promised are lemmas about that function.

- **Text**, **Options**: whitespace trimming as Python and as JavaScript do it, `split`, optional values.
- **Base64**, **Signatures**: the encoder of RFC 4648 (sections 4 and 5), the character-driven decoder
  behind `base64.b64decode` in its strict and its lenient form, and on top of it the decoding of
  trusted public keys and of detached signatures.
- **Trust**: the stored key list with its add, delete and put operations, and the verdict on an archive.
- **Sources**: the operator's source list, how it is normalised, saved and edited, and its priority order.
- **Store**: index documents and the loops that merge them in an insertion-ordered dictionary.
- **Paths**, **Packages**, **Archive**, **Install**: lexical paths, package directories and what their
  manifests read, the loader's lookups, extraction of archives, seeding, the store view, and installation
  from the seed or from an archive, as steps on a map from directory names to file trees.
- **Rbac**, **Roles**: which role a request path needs, and which role a user effectively has.
- **Catalog**: builtin service definitions overlaid by packages, beside the plugin registry.
- **Wizard**: the create-instance wizard as a state machine over whole runs.
- **Upn**: which sign-in a user name leads to, in the browser and on the server.

What lies outside is a parameter: fetching a URL, UTF-8 decoding, the Ed25519 check, the URL check of
`urlparse`, reading an archive's members, the package contract's schema evaluation, files outside the
apps directory, and the order in which a directory is listed. The theorems hold for every value of
these parameters that meets the hypotheses they name: listings are complete, and the package contract demands the five files and the schema's
pattern for manifest ids (`Packages.Host.Valid`); the search for manifests misses none (`Archive.Walks`).
One stand-in for the URL check, `Sources.HttpsWithHost`, is fixed and serves a counterexample only.

Where the code does not do what its callers might expect, the lemma says exactly when it does:

- In a padded signature text of the standard alphabet, hyphens and underscores are data to the first
  attempt; the text is read exactly when there is none, or their number leaves 3 modulo 4
  (`HyphensInStandardText`).
- An unpadded signature text with `k` foreign characters inside it, such as line breaks, is read
  exactly when `k` leaves 0 or 3 modulo 4 (`UnpaddedSignatureWrapped`).
- The source list is checked with the URL as typed but stored trimmed. A blank host passes and is
  stored as no host; a saved list can be saved again exactly when its stored URLs still pass, that is,
  when no edit submitted a URL that passes untrimmed only (`ResaveExactly`, `EditResavesExactly`,
  `ReachableResave`, `DeleteExactly`, `BlankHostBlocksEdits`).
- A manifest may name its five files by any path, also one that leaves the package. A package is read
  the same wherever it is placed exactly when no path is absolute or climbs out of it
  (`ReadsTheSameExactly`). Other packages can pass validation where they were unpacked, be reported as
  installed, and then not load (`SiblingFileIsLost`), or become valid through a write to another
  directory and answer in its place (`AnotherPackageAnswers`). The results about loading name both
  conditions: `SelfContained`, and `Unread` for the packages beside it.
- An archive installed through the store goes under its manifest's id, which is never compared with
  the id asked for; the requested id can be loaded afterwards exactly when the downloaded manifest
  carries it and the package is valid in its place (`RequestedIdLoadsExactly`), and for any two ids
  there is an archive listed under one and installed under the other (`RequestedIdMayNotLoad`).
- The id of a bundled install is joined to the apps directory unchecked: the index schema's pattern for
  ids is not applied when an index is read. The target is the directory's entry of that name exactly
  when the id is not empty, has no slash and is neither `.` nor `..` (`JoinIsChildExactly`). An index
  entry with the id `.` makes the seed package's content replace the whole apps directory
  (`SelfNameReplacesEverything`), one with the id `a/b` changes what is in `a`
  (`InnerNameChangesAnother`); both installs then fail. The results about runs name the condition.
- A bundled install replaces its target before it validates it (`BundledOutcome`), and because seeding
  runs first, a self-contained package can only ever be installed over something that already had the
  bundled name (`BundledInstalledExactly`, `BundledInstallNeedsOccupiedName`).
- The store view does not see reference packages, an install does (`ViewMissesReferences`).
- A malformed stored key ends the search for a verifying key: a signed archive is accepted exactly when
  some key verifies and every key before it is empty or decodes (`AcceptedExactly`,
  `MalformedKeyEndsSearch`). No edit can store such a key; in every store that edits produce, key order
  does not matter (`ReachableUsable`, `TrustDecision`).
- The store id "bundled" marks fill-in entries except where a source of that name wins the id
  (`StoreIdTellsFillIn`).
- A path prefix made of slashes only does not cover all paths (`UnderPrefixExactly`).
- A wizard step keeps what is on offer equal to what was validated exactly when it is not a late or
  withdrawing reply and does not change the version under it (`StepSoundExactly`, `LateReplyIsStale`).
- Past the wizard's step 5 the page sends what was typed exactly when no built-in value stands in for a
  blank field: for Keycloak the GUI secret is not blank; for HAProxy the server address is not blank;
  for FRR the hostname is not blank, and the router id is typed or the first address does not begin
  with a slash (`SentAsTypedExactly`, `DefaultsInReach`).
- Browser and server read the same suffix of a user name exactly when the text behind the last `@`,
  freed of the whitespace both strip, has no end that only one of them strips (`SuffixesAgreeExactly`,
  `SeparatorSplitsThem`).

## Model

| member | source | states |
|---|---|---|
| Base64.DecodeEncode | backend/app/app_packages/trust.py:64-93 | every byte string is recovered from its RFC 4648 encoding, by the strict and by the lenient decoder |
| Base64.AlphabetIsTable | backend/app/app_packages/trust.py:86-90 | both alphabets are those of tables 1 and 2 of RFC 4648, value by value |
| Base64.GroupIsBigEndian | backend/app/app_packages/trust.py:86-90 | the sextets of a group are its 24 bits, most significant first |
| Base64.MixedEncoding | backend/app/app_packages/trust.py:86-90 | the standard and the URL-safe encoding of some bytes, and any mixture of them, read alike in the URL-safe decoding |
| Base64.ScanEncoded | backend/app/app_packages/trust.py:86-90 | decoding an encoding followed by more text: full groups leave the rest to be decoded, padding ends the lenient decoding |
| Base64.StrictAccepts | backend/app/app_packages/trust.py:66-69 | the strict decoder accepts exactly alphabet characters followed by the padding their number calls for (none after full groups), and their number fixes the byte count |
| Base64.ScanIgnoresJunk | backend/app/app_packages/trust.py:88-90 | the lenient decoder sees only alphabet and padding characters |
| Base64.ScanUnpadded | backend/app/app_packages/trust.py:86-90 | data two characters short of a group does not decode with less than its padding |
| Signatures.KeyRecovered | backend/app/app_packages/trust.py:64-72 | a 32-byte key is recovered wherever spaces and newlines are inserted and whatever whitespace surrounds it |
| Signatures.KeyAccepted | backend/app/app_packages/trust.py:64-72 | a key text is accepted exactly when 43 alphabet characters and one `=` remain after cleaning |
| Signatures.SignatureRecovered | backend/app/app_packages/trust.py:79-93 | a 64-byte signature is recovered from raw bytes and from its text as section 4 or section 5 of RFC 4648 encodes it, or any mixture, padded or not, surrounded by whitespace |
| Signatures.PaddedSignatureMayBeWrapped | backend/app/app_packages/trust.py:79-93 | a padded signature text in either alphabet is read whatever foreign characters are inside it |
| Signatures.UnpaddedSignatureWrapped | backend/app/app_packages/trust.py:79-93 | without padding it is read exactly when the number of foreign characters leaves 0 or 3 modulo 4, and refused otherwise |
| Signatures.HyphensInStandardText | backend/app/app_packages/trust.py:86-90 | `k` hyphens and underscores inside a padded standard text: it is read exactly when there is none or `k` leaves 3 modulo 4, when the first attempt raises |
| Signatures.NonAsciiRefused | backend/app/app_packages/trust.py:86-90 | a character outside ASCII inside the text refuses it |
| Trust.SearchKeys | backend/app/app_packages/trust.py:132-139 | the loop settles on the first key that verifies or raises |
| Trust.Validated | backend/app/api/v1/app_store.py:83-85 | the loop of the put endpoint accepts exactly lists of keys that all decode |
| Trust.TrustFile.Load | backend/app/app_packages/trust.py:35-51 | reading creates the default document when there is none and changes nothing else |
| Trust.TrustFile.AddKey | backend/app/app_packages/trust.py:142-159 | appends the normalised key or leaves the list as it was |
| Trust.TrustFile.DeleteKey | backend/app/app_packages/trust.py:162-168 | drops the keys of an id, or reports that there are none |
| Trust.TrustFile.PutTrust | backend/app/api/v1/app_store.py:74-89 | replaces flag and keys only if every key decodes |
| Trust.TrustFile.EnforceArchiveTrust | backend/app/app_packages/trust.py:105-139 | the verdict on an archive, without a change of the stored policy |
| Trust.ReachableUsable | backend/app/api/v1/app_store.py:74-89 | after any sequence of edits every stored key decodes to 32 bytes |
| Trust.AddExactly | backend/app/app_packages/trust.py:142-159 | when an addition goes through, and what it stores under which id and name; nothing else changes |
| Trust.KeyIdGrows | backend/app/app_packages/trust.py:17 | which ids are accepted, character by character |
| Trust.PutExactly | backend/app/api/v1/app_store.py:74-89 | a put goes through exactly when every key to be stored decodes; the flag and the keys are then those asked for |
| Trust.UnsignedExactly | backend/app/api/v1/app_store.py:74-89 | after any edits, an unsigned archive is accepted exactly when the last put that went through allows it, or none did |
| Trust.SearchExactly | backend/app/app_packages/trust.py:132-139 | for every key list, decodable or not, the search accepts exactly when some key verifies and every key before it is empty or decodes |
| Trust.SearchUsable | backend/app/app_packages/trust.py:132-139 | corollary for lists of usable keys: the search accepts exactly when one verifies, and names the first |
| Trust.AcceptedExactly | backend/app/app_packages/trust.py:105-139 | the verdict on every trust document, with or without a signature |
| Trust.TrustDecision | backend/app/app_packages/trust.py:105-139 | over every reachable store, acceptance is: unsigned and allowed, or some stored key verifies; the first such key is reported |
| Trust.OrderIrrelevant | backend/app/app_packages/trust.py:116-139 | acceptance of a signed archive depends on the set of usable stored keys, not on their order; for equal key lists the whole verdict is independent of the unsigned flag |
| Trust.MalformedKeyEndsSearch | backend/app/app_packages/trust.py:132-137 | whatever stands behind a malformed key is never reached: acceptance is that of the keys before it |
| Trust.MalformedKeyHidesLaterKeys | backend/app/app_packages/trust.py:132-137 | a witness that order matters outside the reachable stores: the same two keys refuse or accept |
| Trust.AddingKeepsAcceptance | backend/app/app_packages/trust.py:142-159 | adding a key keeps every acceptance and the key it names |
| Trust.DeletingOnlyRevokes | backend/app/app_packages/trust.py:162-168 | deleting usable keys never makes an archive acceptable |
| Trust.AddThenDelete | backend/app/app_packages/trust.py:142-168 | an addition followed by the deletion of the new id restores the store, even among repeated ids |
| Sources.SourceFile.Load | backend/app/app_packages/sources.py:49-63 | reading bootstraps the list from the environment when there is no file |
| Sources.SourceFile.Save | backend/app/app_packages/sources.py:66-89 | writes the normalised list exactly when ids are well formed and distinct and URLs pass; else writes nothing |
| Sources.SourceFile.ReplaceSources | backend/app/app_packages/sources.py:92-93 | replaces the list or leaves it |
| Sources.SourceFile.AddSource | backend/app/app_packages/sources.py:96-116 | appends and returns the normalised source, or leaves the list |
| Sources.SourceFile.DeleteSource | backend/app/app_packages/sources.py:119-124 | removes a listed id, or leaves the list |
| Sources.SourceFile.EnabledSourcesSorted | backend/app/app_packages/sources.py:127-132 | returns the enabled sources in priority order without changing the list |
| Sources.SavedIsNormal | backend/app/app_packages/sources.py:66-89 | a saved list has distinct well-formed ids, non-empty trimmed names and trimmed URLs that passed the check |
| Sources.SavedExactly | backend/app/app_packages/sources.py:66-89 | when saving goes through, and what it writes for each entry |
| Sources.SourceIdGrows | backend/app/app_packages/sources.py:15 | which ids are accepted, character by character |
| Sources.ResaveExactly | backend/app/app_packages/sources.py:22-89 | saving a saved list again is the identity exactly when its stored URLs still pass, and fails otherwise |
| Sources.DeleteExactly | backend/app/app_packages/sources.py:119-124 | a deletion succeeds exactly when the id is listed and every other stored URL still passes |
| Sources.DefaultIsSaved | backend/app/app_packages/sources.py:29-53 | the bootstrap list is in saved form and saves as itself |
| Sources.BootstrapExactly | backend/app/app_packages/sources.py:29-53 | the bootstrap list is the environment's URL as one enabled source of priority 100 if it passes, else empty |
| Sources.ReachableNormal | backend/app/app_packages/sources.py:66-124 | every list reachable by replace, add and delete is in saved form |
| Sources.EditResavesExactly | backend/app/app_packages/sources.py:22-124 | what an accepted edit leaves saves again as itself exactly when no URL it submitted passes untrimmed only |
| Sources.ReachableResave | backend/app/app_packages/sources.py:49-124 | if no edit submits a URL that passes untrimmed only, every reachable list saves as itself |
| Sources.BlankHostBlocksEdits | backend/app/app_packages/sources.py:22-124 | a blank host is accepted, stored as no host, and then blocks every addition until it is deleted |
| Sources.AddThenDelete | backend/app/app_packages/sources.py:96-124 | an addition followed by the deletion of the new id restores the list |
| Sources.PriorityOrder | backend/app/app_packages/sources.py:127-132 | the order is a permutation of non-increasing priority that keeps file order within a priority |
| Sources.PriorityOrderUnique | backend/app/app_packages/sources.py:127-132 | those properties determine the order |
| Sources.ByPriorityOthers | backend/app/app_packages/sources.py:119-132 | deleting a source moves no other source in the order |
| Store.TakeNew | backend/app/app_packages/store.py:163-174 | the first-wins dictionary loop adds exactly the offers whose id is new |
| Store.TakeAll | backend/app/app_packages/store.py:190-201 | the overwriting dictionary loop |
| Store.TakeSources | backend/app/app_packages/store.py:140-174 | the loop over configured sources, with the fallback document for failed fetches |
| Store.MergeStoreIndexes | backend/app/app_packages/store.py:125-229 | the merge over the sources on disk equals its specification and leaves the sources as they are |
| Store.MergeRefinement | backend/app/app_packages/store.py:140-220 | each id carries the first entry of the first source that lists it, labelled with it, where a source lists what its URL answers with and the fill-in document when it does not; else the first fill-in entry; no id repeats and none is invented |
| Store.ResolveExactly | backend/app/app_packages/store.py:98-124 | the fill-in document is what the environment's URL answers with, else the file shipped, else an empty index; only an unreadable file raises |
| Store.MergeOrder | backend/app/app_packages/store.py:140-228 | with or without sources, the ids are the first occurrences over all documents consulted, in order, and none is empty |
| Store.MetasFollowSources | backend/app/app_packages/store.py:154-228 | the reported sources follow the priority order with their names and URLs, are remote exactly when their document was, and the index is remote when one is and carries the first URL |
| Store.NoSourcesLastWins | backend/app/app_packages/store.py:175-220 | without enabled sources the last duplicate supplies the fields and the first its place |
| Store.NoSourcesHeader | backend/app/app_packages/store.py:175-228 | without enabled sources the default document is reported as the one source |
| Store.DeleteLocality | backend/app/app_packages/store.py:141-220 | deleting a source changes only ids it had won; those go to the next source in order that lists them, else to the fill-in, else away |
| Store.AddLocality | backend/app/app_packages/store.py:141-174 | an added source gets exactly the ids it lists and no source of at least its priority supplies |
| Store.StoreIdTellsFillIn | backend/app/app_packages/store.py:169-220 | the store id tells fill-in entries from source entries except exactly where a source called bundled wins the id |
| Packages.ListLoadedPackages | backend/app/app_packages/loader.py:84-105 | lists the valid packages, without reference packages unless asked for |
| Packages.GetLoadedPackage | backend/app/app_packages/loader.py:108-124 | finds the first listed package of an id |
| Packages.Index | backend/app/app_packages/store.py:253-260 | the dictionary by id keeps the last listed package of each id |
| Packages.LookupFinds | backend/app/app_packages/loader.py:108-124 | a lookup succeeds exactly when some directory carries the id, and finds such a directory |
| Packages.LoadedExactly | backend/app/app_packages/loader.py:66-105 | what is listed: exactly the valid packages, reference packages if asked for, with directory, id and version |
| Packages.IdPatternGrows | docs/schemas/axionet-app-v1.schema.json:14-18 | which manifest ids are accepted, character by character |
| Packages.ReadsTheSameExactly | backend/app/app_packages/contract.py:59-108 | what validation finds at a manifest's five paths is the same in every location exactly when no path is absolute or climbs out of the package |
| Packages.AbsolutePathReads | backend/app/app_packages/contract.py:98-108 | an absolute manifest path reads the file it names, inside the apps directory or outside |
| Packages.WriteUnseen | backend/app/app_packages/contract.py:95-108 | writing an entry of the apps directory leaves the validity of a package alone whose paths do not lead there |
| Packages.LookupAfterWrite | backend/app/app_packages/loader.py:108-124 | when nothing carries an id and no other package of that id reads the entry written, the lookup succeeds exactly if the written directory carries the id; for a self-contained package its tree alone decides |
| Archive.ExtractArchive | backend/app/app_packages/store.py:304-323 | nothing is written unless every member name resolves into the extract directory, and all that is written lies below it |
| Archive.ExtractedContent | backend/app/app_packages/store.py:304-323 | a member's content ends up at its destination unless a later member is written there |
| Archive.ExtractsExactly | backend/app/app_packages/store.py:304-323 | extraction goes through exactly when no member is refused |
| Archive.PlainMemberExtracted | backend/app/app_packages/store.py:297-323 | a relative name without a step back passes and is extracted where it says, from either kind of archive |
| Archive.NamePassesExactly | backend/app/app_packages/store.py:297-301 | a member name passes exactly when it climbs no further than it descends again through the directory's own last segments; an absolute one must spell out the directory |
| Archive.HarmlessNamePasses | backend/app/app_packages/store.py:297-301 | a relative name that never climbs above its start passes, and a tar member of that name lands where the check looked |
| Paths.JoinIsChildExactly | backend/app/app_packages/store.py:396-474 | joining an id to the apps directory gives its entry of that name exactly when the id is non-empty, without a slash, and neither `.` nor `..` |
| Paths.TargetResolves | backend/app/app_packages/store.py:471-474 | an id that is relative and takes no step back leads to its names below the apps directory |
| Archive.FindPackageRoot | backend/app/app_packages/store.py:287-294 | the loop finds the first shallowest manifest |
| Archive.RootIsShallowest | backend/app/app_packages/store.py:287-294 | a root is found exactly when there is a manifest; it lies inside, holds a manifest, and none is shallower |
| Install.AppsDir.EnsureSeeded | backend/app/app_packages/store.py:46-61 | copies exactly the seed's packages whose names are free |
| Install.AppsDir.StoreEntriesWithStatus | backend/app/app_packages/store.py:232-284 | seeds, merges, and reports each entry with its installed version |
| Install.ViewExactly | backend/app/app_packages/store.py:253-276 | one row for each listing in order: installed exactly when a directory carries the id, with such a directory's version; signing is required for archives |
| Install.AppsDir.FetchSignature | backend/app/app_packages/store.py:335-354 | the first https candidate with a body is the signature |
| Install.SignatureExactly | backend/app/app_packages/store.py:335-354 | the signature comes from the URL given if that serves one, else from the archive's URL with `.sig` |
| Install.AppsDir.Place | backend/app/app_packages/store.py:471-474 | removing the target and copying there: an entry, a place inside one unless a file is in the way, or the whole directory for an id that names it |
| Install.AppsDir.InstallFromArchiveUrl | backend/app/app_packages/store.py:357-405 | the archive install as a step on the apps directory |
| Install.AppsDir.InstallBundled | backend/app/app_packages/store.py:464-483 | the bundled branch as a step on the apps directory |
| Install.AppsDir.InstallFromStore | backend/app/app_packages/store.py:408-485 | the store install as a step on the apps directory |
| Install.StoreInstallsBy | backend/app/app_packages/store.py:421-485 | what a store install answers without a merged index, for an unlisted id, an id that is carried, and an entry without a source |
| Install.SeedPackageExactly | backend/app/app_packages/store.py:464-470 | a bundled entry names the seed's package by its path, else by the id, if that is no path and does not begin with a dot |
| Install.BundledFailsWith | backend/app/app_packages/store.py:464-470 | a bad path and a missing package fail before anything changes |
| Install.BundledOutcome | backend/app/app_packages/store.py:464-483 | under a child name exactly the target directory is replaced, also when the install fails; it succeeds exactly when some directory then carries the id, which is always a child name |
| Install.BundledIdentity | backend/app/app_packages/store.py:464-483 | when no other package of the id reads the target, success means that the directory written carries the id and is reported; a self-contained package succeeds exactly when it is valid on its own with that id |
| Install.AnotherPackageAnswers | backend/app/app_packages/store.py:471-483 | without that condition the install can report a package it did not write |
| Install.BundledInstalledExactly | backend/app/app_packages/store.py:421-483 | for every id, whatever manifests read: a store install of an entry without archive installs exactly when the entry is bundled, the seed holds its package, no plain file is in the way, nothing carries the id after seeding, and something does after the write; for a self-contained package that is unread, the last part is its own validity and id |
| Install.BundledInstallNeedsOccupiedName | backend/app/app_packages/store.py:421-483 | corollary for self-contained packages whose place no other package of the id reads: success only over an entry of the bundled name other than the seed's package |
| Install.SelfNameReplacesEverything | backend/app/app_packages/store.py:464-482 | a bundled entry listed under `.` replaces the whole apps directory by the seed package's content and fails |
| Install.InnerNameChangesAnother | backend/app/app_packages/store.py:464-482 | one listed under `a/b` replaces what entry `a` holds under `b` and fails |
| Install.ArchiveAllOrNothing | backend/app/app_packages/store.py:381-405 | a failed archive install changes nothing; a successful one changes exactly the manifest's directory, and makes its id loadable if the package is self-contained |
| Install.SiblingFileIsLost | backend/app/app_packages/store.py:388-400 | an archive whose manifest names a file beside the package's directory installs and cannot be loaded |
| Install.ArchivePassedEveryCheck | backend/app/app_packages/store.py:369-393 | what goes through had an https URL, an accepting verdict, only inside members, and a root inside the extract directory |
| Install.ArchiveInstalledExactly | backend/app/app_packages/store.py:357-405 | an archive install goes through exactly when URL, signature or unsigned flag, members, manifest and package pass and no plain file is in the way; the outcome says already installed exactly when the id had a package |
| Install.FetchFailsWith | backend/app/app_packages/store.py:369-393 | a rejected archive names the first obstacle |
| Install.InstalledArchiveWasVerified | backend/app/app_packages/store.py:381-400 | over every reachable trust store that forbids unsigned archives, an installed archive was verified by a stored key |
| Install.RequestedIdLoadsExactly | backend/app/app_packages/store.py:394-400 | a store install from an archive changes only the manifest's directory; if no other package of the requested id reads that, the id is loadable exactly when the downloaded manifest carries it and the package is valid in its place, which a self-contained one is |
| Install.RequestedIdMayNotLoad | backend/app/app_packages/store.py:394-400 | for any two different ids there is an archive listed under one that installs under the other |
| Install.ViewAgreesWithInstall | backend/app/app_packages/store.py:253-276 | installing what the view reports as installed changes nothing, and versions agree unless an id is carried twice |
| Install.ViewMissesReferences | backend/app/app_packages/store.py:440-451 | the install's lookup and the view differ exactly by reference directories |
| Install.RunReplacesOnlyInstalled | backend/app/app_packages/store.py:396-474 | in every run that asks for bundled entries below the apps directory only, a directory persists and changes only by a step that writes under its name |
| Install.LaterSeedingsDoNothing | backend/app/app_packages/store.py:46-61 | after a first seeding all later ones in such a run are no-ops, whatever is installed in between |
| Roles.MaxRole | backend/app/core/roles.py:21-30 | the loop returns the highest role, and viewer for none |
| Roles.EffectiveRole | backend/app/core/roles.py:33-39 | the effective role is the least upper bound of the own and the group roles |
| Roles.JoinUnique | backend/app/core/roles.py:21-39 | that bound is unique, so membership order does not matter |
| Roles.GateOpensForSomeRole | backend/app/core/rbac.py:67-85 | the gate opens for the effective role exactly when one held role alone would open it |
| Roles.GateByName | backend/app/core/rbac.py:67-68 | by names: admin passes every minimum, operator all but admin, any other text viewer only |
| Roles.EffectiveByName | backend/app/core/roles.py:21-39 | the effective role is admin exactly when some held role names it, and viewer exactly when none names admin or operator |
| Roles.MembershipNeverRevokes | backend/app/core/rbac.py:67-85 | adding a membership never closes the gate |
| Rbac.UnderPrefixExactly | backend/app/core/rbac.py:34-41 | the string prefix test is the segment prefix test, except for prefixes of slashes only |
| Rbac.SuffixExactly | backend/app/core/rbac.py:44-45 | the string suffix test is the segment suffix test for anchored suffixes |
| Rbac.MutationRuleBySegments | backend/app/core/rbac.py:11-64 | the required role, for every method and path, read off the path's segments, with the resources and actions spelt out |
| Rbac.TrailingSlashesIgnored | backend/app/core/rbac.py:34-64 | any number of trailing slashes leaves the required role as it is |
| Rbac.EnforceMutationRbac | backend/app/core/rbac.py:71-88 | a request is forbidden exactly when a role is required and no held role, trimmed and lower-cased, is admin or, where that suffices, operator |
| Catalog.Overlay | backend/app/plugins/catalog.py:57-68 | the overlay loop leaves each type its effective definition, in order of first appearance |
| Catalog.ListServiceDefinitions | backend/app/plugins/catalog.py:56-79 | builtin types first in their order, then each added type once, each with its effective definition |
| Catalog.CatalogTypes | backend/app/plugins/catalog.py:69-79 | the types shown are distinct and begin with the builtins |
| Catalog.CatalogLists | backend/app/plugins/catalog.py:56-79 | a type is shown exactly when a builtin or a package with a runtime provides it |
| Catalog.ShownExactly | backend/app/plugins/catalog.py:57-68 | what is shown for a type: the enabled builtin, else the first package's definition with its image or the type's name, else the disabled builtin |
| Catalog.PackageForExactly | backend/app/plugins/generic/plugin.py:41-45 | a type's package is the first listed that declares a runtime |
| Catalog.EnabledBuiltinStands | backend/app/plugins/catalog.py:59-67 | an enabled builtin is unchanged by any packages |
| Catalog.ListEnabledServiceTypes | backend/app/plugins/registry.py:30-37 | exactly the types for which a plugin can be had |
| Catalog.EnabledExactlyWhenPluggable | backend/app/plugins/registry.py:21-37 | a type is shown enabled exactly when a plugin can be had; package definitions are those of the generic plugin's package |
| Wizard.SentAsTypedExactly | frontend/src/pages/CreateInstanceWizardPage.tsx:18-304 | past step 5 the configuration sent is the one typed exactly when none of the four defaults is in reach |
| Wizard.GuardedFieldsAsTyped | frontend/src/pages/CreateInstanceWizardPage.tsx:292-304 | the fields that step 5 insists on are sent as typed; the FRR router id is typed, from the first address, or the built-in one |
| Wizard.DefaultsExactly | frontend/src/pages/CreateInstanceWizardPage.tsx:18-150 | what is sent in the place of each blank field |
| Wizard.DefaultsInReach | frontend/src/pages/CreateInstanceWizardPage.tsx:18-304 | forms that step 5 lets through and that send a built-in GUI secret, server address or the instance name as hostname |
| Wizard.WizardPage.OnPick | frontend/src/pages/CreateInstanceWizardPage.tsx:374-378 | picking a service takes its type and version and drops the validation |
| Wizard.WizardPage.OnEdit | frontend/src/pages/CreateInstanceWizardPage.tsx:396-710 | an edit changes only the fields shown at the step |
| Wizard.WizardPage.OnBack | frontend/src/pages/CreateInstanceWizardPage.tsx:857-860 | one step back, dropping the validation from step 7 |
| Wizard.WizardPage.OnNext | frontend/src/pages/CreateInstanceWizardPage.tsx:876-879 | one step forward, dropping the validation from step 5 |
| Wizard.WizardPage.SendValidation | frontend/src/pages/CreateInstanceWizardPage.tsx:309-314 | captures type, version and configuration of the moment |
| Wizard.WizardPage.OnValidated | frontend/src/pages/CreateInstanceWizardPage.tsx:315 | a reply becomes the validation held, whenever it arrives |
| Wizard.WizardPage.OnCreate | frontend/src/pages/CreateInstanceWizardPage.tsx:318-335 | what is sent for creation is what was validated, in a sound state |
| Wizard.VersionPinnedExactly | frontend/src/pages/CreateInstanceWizardPage.tsx:198-199 | the version is out of the catalogue's reach exactly when one was picked or typed |
| Wizard.VersionExactly | frontend/src/pages/CreateInstanceWizardPage.tsx:198-199 | the version in force: the one picked or typed, else the first matching service's default, else the built-in one |
| Wizard.CreatedFormIsComplete | frontend/src/pages/CreateInstanceWizardPage.tsx:275-307 | in every run the form at step 7 meets the guards of all steps |
| Wizard.PickExactly | frontend/src/pages/CreateInstanceWizardPage.tsx:374-378 | a pick puts the service's type and version in force and leaves the rest of the form alone |
| Wizard.EditsOffered | frontend/src/pages/CreateInstanceWizardPage.tsx:396-710 | what can be typed at each step |
| Wizard.ValidateThenReply | frontend/src/pages/CreateInstanceWizardPage.tsx:309-316 | an answered validation is held with what was sent |
| Wizard.ValidateThenLost | frontend/src/pages/CreateInstanceWizardPage.tsx:309-316 | a lost reply leaves the page as it was |
| Wizard.NextThenBack | frontend/src/pages/CreateInstanceWizardPage.tsx:851-886 | forward and back changes nothing, but leaving step 5 or returning from step 7 drops the validation |
| Wizard.StepSoundExactly | frontend/src/pages/CreateInstanceWizardPage.tsx:851-886 | a step keeps the wizard sound exactly when it is no misleading reply and does not change the version under a validation held |
| Wizard.WizardSafety | frontend/src/pages/CreateInstanceWizardPage.tsx:208-316 | in every run with replies before leaving step 6 and a settled catalogue from there on, step 7 offers creation of exactly what was validated |
| Wizard.LateReplyIsStale | frontend/src/pages/CreateInstanceWizardPage.tsx:309-316 | from any state at step 6 a late reply leads to creation of something not validated |
| Upn.SuffixesFromTail | frontend/src/pages/LoginPage.tsx:8-13 | splitting and taking the last part reads what splitting at the last `@` reads |
| Upn.ParsedExactly | backend/app/core/upn.py:21-32 | the server splits at the last `@`, trims both sides and lower-cases the suffix |
| Upn.TrimsAgreeExactly | backend/app/core/upn.py:21-32 | Python and JavaScript trim a text alike, up to case or not, exactly when, freed of the whitespace both strip, neither of its ends is a space in only one of them |
| Upn.DisputedExactly | backend/app/core/upn.py:22-30 | the disputed characters: four separators and the next line in Python alone, the byte order mark in JavaScript alone |
| Upn.SuffixesAgreeExactly | backend/app/core/upn.py:21-32 | browser and server agree on the suffix exactly when that holds of the text behind the last `@` |
| Upn.LoginAgreement | frontend/src/pages/LoginPage.tsx:27-34 | for every such user name, single sign-on is asked for exactly when the route is not local and not known as password sign-in |
| Upn.SeparatorSplitsThem | backend/app/core/upn.py:16-32 | a unit separator behind the local suffix sends browser and server different ways |

## Left out

- HTTP, JSON parsing, temporary directories and archive formats: parameters, or abstract values; symbolic links and a member that names a file below another file are not modelled.
- The package contract (JSON schemas, cross-file consistency, forbidden suffixes): one uninterpreted predicate on the file tree and on what is found at the five paths of its manifest; a manifest that makes validation raise something other than `ValueError` is not modelled.
- Ids in index entries are taken as strings. What a bundled install does to the apps directory under an id that is absolute or contains `..` is a parameter, because it depends on what else is in the file system.
- Manifest paths are resolved lexically: a `..` behind a directory that does not exist, which the file system refuses, is taken as a step back. Files outside the apps directory do not change.
- Ed25519, UTF-8 decoding and `urlparse`: parameters; `HttpsWithHost` is a lexical stand-in used for one counterexample only.
- The listing order of directories is a parameter, so lookups are proved for every order rather than for the sorted one.
- `trust.json` and `sources.json` edited by hand: the stored lists hold entries with all fields present.
- Apps and seed directories that coincide, and crashes in the middle of removing or copying a directory.
- Case mapping is that of ASCII letters; upper-case letters outside ASCII are left alone.
- Numbers in the wizard's form are integers, and the instance name, networks and start flag sent along with a creation are not part of a request.
- Signatures.SignatureRecovered: assumes that UTF-8 decoding yields no more characters than there are bytes.
- VIP advertising, instance reconciliation, pending changes, configuration renderers, database models, other routers, and page rendering: not part of this model.
