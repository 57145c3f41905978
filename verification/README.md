# trustd, modelled and proved

trustd keeps a machine's trusted root certificates. It composes a store from a shipped bundle, additions and distrusts,
renders it as files for software that reads a path, and serves it over a socket to clients and subscribers. This project
is a Dafny model of that pipeline and proofs about it:

- **Certificate codecs** (`Base64`, `Pem`, `Der`, `CanonicalName`): the base64 reader with its wrapping 32-bit
  accumulator (section 4 of RFC 4648), the PEM line scanner (section 5 of RFC 7468), the DER reader and writer (sections
  8.1.3 and 10.1 of ITU-T X.690) and the canonical name with its SET OF sorting (section 11.6 of X.690).
- **Composition** (`Spelling`, `Store`, `Provenance`) and **audit** (`Audit`): how fingerprints and purposes are compared,
  the accumulating loops against a declarative set, where each root comes from and what is reported of the rest, and the
  events between two sets.
- **Files** (`Rendering`, `Install`): what the bundle and the hashed directory hold, and how they are put in place on a
  filesystem where any operation may fail. A claim about a method of `StoreDirectory` holds for every schedule of faults.
- **The daemon** (`Daemon`, `Runs`, `Distrusts`, `Leftovers`, `Service`): the state machine over whole runs with any
  failures, and the object whose methods take its steps. `Service.Trustd` renders through `StoreDirectory`, writes through
  `SendRoots` and is proved step by step against `Daemon`; the other modules hold the theorems about runs. An event carries
  what rendering and sending came to, and `Possible` and `TrueSends` say what they can come to.
- **Transfer** (`Framing`, `Transfer`, `Subscriptions`, `Delivery`, `Assembly`, `Requests`): frames and chunked snapshots
  written piecemeal by the daemon and put together again by a client across any fragmentation and any timeouts. A schedule
  gives what each turn of a loop meets; one that runs out is a deadline that has passed. `Requests` is the other direction.
- **The wire** (`Wire`, `WireForms`, `RoundTrips`, `Decoding`): messages as MessagePack values, read back from every form,
  and what each field says in a message that has only some.
- **The registry** (`Registry`, `Loading`): an addition written value by value while a load reads.
- **The bundle stamp** (`BundleStamp`) and the **type generator** (`Layout`).
- `EndToEnd` joins the parts: what a path on the machine reads back as, and what a subscribed client has been given.

The X.509 parser with its hashes is a function parameter (`Parser`), as are MessagePack packing (`Packing`) and UTF-8
(`Utf8`). What a theorem needs of them it says: `FingerprintsIdentify`, `PrintsHashes`, `Steady`, `Faithful`, and of
packing, that the messages written are unpacked again (`UnpacksReplies`, `UnpacksRequests`, `ReadBack`).

Where loops change state in the original they are methods here, each proved equal to a specification function, and the
theorems are about those functions.

## What the proofs found

- Distrust is to be conditional on nothing else succeeding, by the comment at trust-core/src/store.rs:10-14. By the code it
  takes hold of the set and of the subscribers exactly when the event that loads it also composes, which takes a readable
  bundle, 50 blocks and something left (`DistrustTakesHold`, `ComposeSucceeds`); otherwise a distrusted root stays in use,
  on disk and with every subscriber (`DistrustWaits`). It takes hold of a file exactly when the file is taken away then, or
  written and no comment spells a distrusted certificate; one left as it is holds what it held (`DistrustReachesFiles`). In
  good health distrust is absolute for the set and the subscribers (`DistrustIsAbsolute`).
- A comment at trust-core/src/lib.rs:262-264 says that what is rendered in degraded health is never partial. A rendering
  can leave part of a store exactly when it withdraws two files or more (`PartPossible`, `WithdrawHalfway`). Given what a
  run finds, some outcome of its renderings does so exactly when an event withdraws the files, and before it an event
  rendered roots or there were two files to begin with (`PartExactly`). While files are rendered each path is whole
  (`NeverPartial`).
- A comment at trust-core/src/lib.rs:291-292 says the generation rises on every successful composition. By the code at
  trustd/src/main.rs:145-166 it rises exactly when an event composes and the set, the configuration it finds or the health
  is not as before (`GenerationRises`); composing the same set twice leaves it at 1 (`SecondCompositionDoesNotRaise`).
- An addition is seen whole or not at all by every load exactly under a condition that can be checked before it
  (`AtomicExactly`): its name is fresh, or what is there is no usable certificate, or no purposes are given, or they or the
  certificate stay the same, or the new purposes are no text. Otherwise a load can find the old certificate with the new
  purposes (`ReplacingCanBeTorn`).
- An addition without purposes over an existing name keeps the purposes already there (`AddedIsLoaded`).
- A rendered bundle reads back exactly when no root's comment lines spell a certificate block; subjects and names of one
  line are enough (`BundleReadsBack`). A name that may be used can be such (`NameCanSpellACertificate`). A list of purposes
  reads back exactly when none holds a NUL (`MultiReadsBack`).
- A bundle upgrade can be missed even if distinct texts have distinct stamps: the file replaced and put back between a
  refresh's stamp and its read leaves the other text in use (`PutBackIsMissed`). Nothing is missed exactly when no stamp
  comes back after other text (`NothingMissedExactly`).
- The subscription's safety needs no bound on frames or snapshots. The bounds decide only which snapshots arrive
  (`ClientIsGivenWhatWasSent`), and a certificate larger than a message closes the subscription (`OversizeCloses`).
- The canonical name is a fixed point for names of every size: the content of a name the reader accepts is already below
  2^32 bytes.

## Model

| member | source | states |
|---|---|---|
| `Base64.DecodeText` | trust-core/src/cert.rs:370-393 | the reader with its never-cleared 32-bit accumulator computes `Decode`, for every text |
| `Base64.AccumulatorStep` | trust-core/src/cert.rs:378-389 | one value pushed through the wrapping accumulator keeps the unread low bits and yields exactly the byte the bit string yields |
| `Base64.SextetsCharByChar` | trust-core/src/cert.rs:374-383 | the characters are taken exactly when each before the first `=` is a digit or a blank, one value for each digit in order; padding ends the reading |
| `Base64.DecodeIsTheBitString` | trust-core/src/cert.rs:370-393 | decoding succeeds exactly when every character before the first `=` is a digit or a blank; k digits give floor(6k/8) bytes, whose bits are the first bits of the digits |
| `Base64.BlanksIgnored` | trust-core/src/cert.rs:374-383 | a space, tab, CR or LF anywhere changes nothing |
| `Base64.EncodeBytes` | trust-core/src/cert.rs:345-368 | the writer's loop over groups of three bytes computes `Encode` |
| `Base64.EncodingIsPadded` | trust-core/src/cert.rs:345-368 | four digits for every three bytes begun, with padding exactly where the last group has no data |
| `Base64.DecodeInvertsEncode` | trust-core/src/cert.rs:345-393 | decoding inverts encoding for every byte string |
| `Base64.PackInverts` | trust-core/src/cert.rs:370-393 | cutting bits into bytes undoes laying bytes end to end, whatever short tail follows |
| `Pem.ReadPem` | trust-core/src/cert.rs:308-327 | the line scanner's loop computes `FromPem` |
| `Pem.TrimIs` | trust-core/src/cert.rs:308-327 | trimming takes away exactly the Unicode white space at both ends |
| `Pem.LastLine` | trust-core/src/cert.rs:308-327 | a last line without a newline is read, unless it is empty |
| `Pem.WriteColumns` | trust-core/src/cert.rs:329-341 | the encoded text is cut into columns of 64 |
| `Pem.WritePem` | trust-core/src/cert.rs:329-341 | the writer computes `ToPem` |
| `Pem.BlockLines` | trust-core/src/cert.rs:329-341 | a written block is a marker, the encoded text in lines of 64 characters and a last of no more, and a marker |
| `Pem.ScanBlock` | trust-core/src/cert.rs:308-341 | a written block is read back whole whatever block was open before it, and leaves none open |
| `Pem.Resynchronises` | trust-core/src/cert.rs:308-341 | for any text a of whole lines, any b and any certificate d, reading a + block(d) + b gives what a gives, d, then what b gives |
| `Pem.ScanFindsNothing` | trust-core/src/cert.rs:308-327 | the scanner finds nothing exactly when no line opens a block that the next marker closes with text that decodes |
| `Der.ReadTlv` | trust-core/src/cert.rs:529-551 | what an element holds and what follows it fit inside the input, and the content is below 2^32 bytes |
| `Der.ReadWritten` | trust-core/src/cert.rs:509-551 | a written element is read back exactly when its content is below 2^32 bytes, and refused otherwise |
| `Der.WriterIsShortest` | trust-core/src/cert.rs:509-551 | an element as read is never shorter than the writer would make it |
| `Der.ReadElements` | trust-core/src/cert.rs:553-584 | the loop over elements computes `Elements`, with or without a required tag |
| `Der.ElementsCover` | trust-core/src/cert.rs:553-584 | the elements are the content cut into whole elements, with nothing between |
| `Der.ElementsOfWhole` | trust-core/src/cert.rs:553-584 | whole elements laid end to end are split as they were |
| `CanonicalName.FoldKeepsText` | trust-core/src/cert.rs:478-505 | the other bytes of a folded value are those of the value, in order, each ASCII capital as its small letter and every other byte as it was |
| `CanonicalName.FoldGaps` | trust-core/src/cert.rs:478-505 | between two bytes that only spaces part, a folded value has one space, or none if none part them |
| `CanonicalName.FoldBytes` | trust-core/src/cert.rs:478-505 | the folding loop computes `Fold` |
| `CanonicalName.FoldCorrect` | trust-core/src/cert.rs:478-505 | folding leaves no outer or doubled space and no ASCII capital, and changes exactly the values that are not so already |
| `CanonicalName.AvaFixed` | trust-core/src/cert.rs:458-475 | a canonical attribute is one whole element, no longer than the original, and canonical already |
| `CanonicalName.AvaReadsBack` | trust-core/src/cert.rs:415-475 | exactly attributes are canonical, and the canonical form is one of the same type: under the UTF8String tag and folded for exactly the seven string tags, and for any other tag with its value as it was |
| `CanonicalName.AvaKeepsValue` | trust-core/src/cert.rs:458-475 | an attribute's type survives, with its value as it was or, for a string, folded under one tag; bytes after the value are dropped |
| `CanonicalName.RdnFixed` | trust-core/src/cert.rs:429-475 | a canonical RDN is one whole SET, no longer than the original, and canonical already |
| `CanonicalName.RdnKeepsMembers` | trust-core/src/cert.rs:433-446 | a canonical RDN holds exactly the canonical forms of its members, as often as they were there, sorted |
| `Sorting.BytesLexicographic` | trust-core/src/cert.rs:442 | byte strings are ordered by their first difference, a proper prefix first |
| `CanonicalName.NameKeepsRdns` | trust-core/src/cert.rs:429-456 | a canonical name splits again into its RDNs' canonical forms, in their order |
| `CanonicalName.CanonicaliseRdn` | trust-core/src/cert.rs:435-454 | the loop over an RDN's attributes, sorted, computes `CanonicalRdn` |
| `CanonicalName.CanonicaliseName` | trust-core/src/cert.rs:429-456 | the loop over RDNs computes `CanonicalName`, refusals included |
| `CanonicalName.CanonicalIsShorter` | trust-core/src/cert.rs:429-584 | the canonical form is shorter than the name by at least a header |
| `CanonicalName.CanonicalIsFixed` | trust-core/src/cert.rs:429-584 | the canonical form, wrapped in a SEQUENCE, is its own canonical form |
| `CanonicalName.RdnReordered` | trust-core/src/cert.rs:429-456 | reordering the members of an RDN changes nothing |
| `CanonicalName.OrderIsIgnored` | trust-core/src/cert.rs:429-456 | names alike up to the order inside their RDNs have one canonical form, or are refused alike |
| `Store.ComposeStore` | trust-core/src/store.rs:73-166 | the three accumulating loops and the sort compute `Compose`, warnings and counts included |
| `Store.ComposeIsDeclarative` | trust-core/src/store.rs:73-202 | the roots are the fingerprint-sorted first occurrences, shipped before added, of candidates that parse and are not distrusted, strictly increasing and nonempty; composition fails for fewer than 50 blocks or nothing left, and in no other case; shipped + added + skipped are all the blocks and additions |
| `Store.ComposeSucceeds` | trust-core/src/store.rs:79-164 | composition succeeds exactly when there are 50 blocks and some candidate is chosen |
| `Store.IncreasingUnique` | trust-core/src/store.rs:155-164 | the members of the effective set determine it as a sequence |
| `Sorting.TextLexicographic` | trust-core/src/store.rs:155-159 | fingerprints and names are ordered by their first difference, a proper prefix first |
| `Store.DistrustIsASet` | trust-core/src/store.rs:169-202 | distrusts that are the same but for order, repetition, case and separators leave the same roots |
| `Spelling.NormalisedAgrees` | trust-core/src/store.rs:195-202 | two spellings are matched as one exactly when their ASCII letters and digits are the same in order, but for case |
| `Spelling.NormalisedStands` | trust-core/src/store.rs:195-202 | what a fingerprint is matched as has only small letters and digits, and text that is so already, and no other, stands |
| `Spelling.SeparatorsIgnored` | trust-core/src/store.rs:195-202 | nor does a character that is no ASCII letter or digit, wherever it stands |
| `Spelling.CaseIgnored` | trust-core/src/store.rs:195-202 | the case of a letter makes no difference to what a fingerprint is matched as |
| `Store.BundleIsASet` | trust-core/src/store.rs:73-166 | permuting or repeating the bundle's blocks leaves the roots alone, when fingerprints identify certificates |
| `Store.DistrustIsExact` | trust-core/src/store.rs:169-193 | one distrust more removes exactly the root it names, and composition then fails only if nothing is left |
| `Store.UnmatchedReported` | trust-core/src/store.rs:145-153 | a distrust is warned of as matching nothing exactly when no candidate has its fingerprint |
| `Provenance.RootsComeFrom` | trust-core/src/store.rs:91-143 | every root is a shipped certificate, parsed without a clock and for server authentication alone, or an addition under its name with the purposes it was given, or server authentication for none; an addition only if no shipped certificate is it |
| `Provenance.NothingIsLost` | trust-core/src/store.rs:73-193 | every block and every addition is counted where it belongs, and the warnings are, in order, exactly those of the certificates that do not parse, are distrusted or are there already, and of the distrusts that match nothing |
| `Store.RootsForPurpose` | trust-core/src/store.rs:205-211 | the roots for a purpose are exactly those that carry it, in ASCII without regard to case |
| `Store.RootsForPurposeSelects` | trust-core/src/store.rs:205-211 | the roots for a purpose are, place by place and each once, those with a purpose that is the same but for the case of ASCII letters |
| `Store.SelectionUnique` | trust-core/src/store.rs:205-211 | there is one such selection |
| `Audit.RecordChanges` | trustd/src/audit.rs:55-83 | the two loops compute `Changes` |
| `Audit.ChangesAreExact` | trustd/src/audit.rs:55-83 | an event is recorded exactly for a root that entered or left; a departure is put down to distrust exactly when the list names it |
| `Audit.ChangesReplay` | trustd/src/audit.rs:55-83 | the events in order, each applicable when applied, turn the old fingerprints into the new |
| `Rendering.Compat.AsDword` | trustd/src/render.rs:49-64 | the number written for a mode reads back as that mode |
| `Rendering.ModesRead` | trustd/src/render.rs:49-64 | 0 alone turns the files off, and a number that names no mode means the files |
| `Rendering.BundleForRoots` | trustd/src/render.rs:69-111 | the appending loop writes `Bundle`, its header in full |
| `Rendering.BlockOnLines` | trustd/src/render.rs:99-111 | a root of one-line texts is its subject, its name if it was added, its fingerprint, its certificate and an empty line |
| `Rendering.HeaderOnLines` | trustd/src/render.rs:71-94 | the header is ten lines, with the counts of roots in decimal, and an empty one |
| `Rendering.CountedOnce` | trustd/src/render.rs:83-92 | the header's counts take each root once, for its own source |
| `Rendering.BundleReadsBack` | trustd/src/render.rs:69-111 | the bundle reads back as exactly its roots' certificates in order, exactly when no root's comment lines spell a certificate block; texts of one line never do |
| `Rendering.CommentsSpell` | trustd/src/render.rs:69-111 | a root's comments hold a certificate exactly when their lines spell a block |
| `Rendering.NameCanSpellACertificate` | trust-client-core/src/lib.rs:237-239 | a name that passes as usable puts a certificate of no set into the rendered bundle |
| `Rendering.HashedLooksUp` | trustd/src/render.rs:151-181 | `hash.0`, `hash.1` and so on, to the first gap, are exactly the roots with that hash, in order |
| `Rendering.HashedNames` | trustd/src/render.rs:151-181 | names are distinct: one for the bundle, one for each root, and no other |
| `Rendering.DecimalReads` | trustd/src/render.rs:163-175 | numbers in names and counts are in the usual decimal |
| `Rendering.CertsDirExact` | trustd/src/render.rs:143-181 | the rendered directory holds the bundle and one file a root, and every hash finds its own roots |
| `Install.StoreDirectory.ExchangeFallback` | trustd/src/render.rs:337-363 | for every schedule of faults: success installs the staged store; failure leaves the old live, the new live with only the clean-up failed, or none live with the old set aside; no reader ever sees a mixture; without faults it succeeds |
| `Install.StoreDirectory.Exchange` | trustd/src/render.rs:299-335 | the same for the exchange as a whole, with or without an old store and with or without the one-step exchange |
| `Install.StoreDirectory.EmptyDir` | trustd/src/render.rs:271-281 | success leaves the directory empty; failure leaves as many entries as removals had not yet succeeded |
| `Install.StoreDirectory.FindUsed` | trustd/src/render.rs:163-175 | the number last given to a hash is found, if there is one |
| `Install.StoreDirectory.StageHashed` | trustd/src/render.rs:158-181 | the staged directory holds exactly the numbered files of the roots |
| `Install.StoreDirectory.Stage` | trustd/src/render.rs:143-181 | the staged directory holds exactly the rendering, whatever was there before |
| `Install.StoreDirectory.Withdraw` | trustd/src/render.rs:127-141 | success leaves no certificate at either live path; failure leaves everything, or takes the single file and leaves as many entries of the directory as the failed removal had not reached; on the way a reader sees only parts of the old store |
| `Install.WithdrawHalfway` | trustd/src/render.rs:127-141 | of any directory of two entries or more, a removal that fails leaves all but one |
| `Install.StoreDirectory.Render` | trustd/src/render.rs:125-199 | from any prior state: success leaves exactly the rendering of the roots with the purpose "ServerAuth" in this mode, and every directory a reader may meet on the way is absent, old, new or, when files are withdrawn, part of the old |
| `Install.RenderedAreServing` | trustd/src/render.rs:157-159 | a rendering holds exactly the roots with the purpose "ServerAuth" in any case, in the order of the set and each once |
| `Daemon.RefreshKeeps` | trustd/src/main.rs:108-211 | every refresh keeps the invariant, whichever of its steps fails |
| `Daemon.StepKeeps` | trustd/src/main.rs:108-267 | every refresh, request and departure keeps the invariant |
| `Daemon.RunKeeps` | trustd/src/main.rs:108-267 | the invariant holds in every state of every run |
| `Daemon.LazyAgreesWithEager` | trustd/src/main.rs:147-178 | a daemon that skips unchanged work and one that never does, given the same findings, agree on configuration and set throughout, and on every path a reader looks at when both are in good health |
| `Daemon.HealthMeansRendered` | trustd/src/main.rs:108-211 | in good health, once composed, the files are exactly the rendering of the current roots in the current mode, and the paths listed are theirs |
| `Daemon.PublishKeepsCurrent` | trustd/src/main.rs:214-231 | publishing a later generation leaves every kept subscriber current |
| `Daemon.ProjectTells` | trustd/src/main.rs:67-92 | what a client is told are exactly the roots with the purpose asked for, or all if none is, in order, each field as it is, and the certificate exactly when asked for |
| `Daemon.SubscribersAreCurrent` | trustd/src/main.rs:214-258 | the last whole snapshot of every listed subscriber is the current generation and exactly the current roots, each with every field and with its certificate exactly when asked for, after ever later ones |
| `Daemon.GenerationsNameSets` | trustd/src/main.rs:147-178 | the generation never falls, and two states of a run with one generation have one set of roots |
| `Daemon.StepRecords` | trustd/src/main.rs:147-155 | a step records nothing and keeps the roots, or records exactly the difference it makes |
| `Daemon.StepAudits` | trustd/src/main.rs:149-155 | a step's events replay to the new set, and a departure is put down to distrust exactly when the list composed under names it |
| `Daemon.AuditConserves` | trustd/src/main.rs:149-155 | over any run, failures included, replaying the log since the first success over that baseline gives the current fingerprints |
| `Daemon.NoEventsBeforeBaseline` | trustd/src/main.rs:151-155 | nothing is recorded before a first composition has succeeded, nor by it |
| `Daemon.NothingBeforeFirst` | trustd/src/main.rs:147-157 | until a first composition succeeds the set is empty, with nothing counted, at generation 0 |
| `Runs.StepCarries` | trustd/src/main.rs:214-258 | a refresh, request or departure keeps every listed socket at exactly the frames of the snapshots sent on it |
| `Runs.RunCarries` | trustd/src/main.rs:214-258 | in every state of every run each listed subscriber's socket has taken exactly the frames of the snapshots it was sent |
| `Runs.GenerationRises` | trustd/src/main.rs:145-166 | after any run, an event raises the generation, and by one, exactly when it composes and the set, the configuration it finds or the health is not as before it |
| `Runs.SecondCompositionDoesNotRaise` | trust-core/src/lib.rs:291-292 | a run of two successful compositions whose generation stays at 1 |
| `Distrusts.DistrustIsAbsolute` | trust-core/src/store.rs:169-202 | in good health, after any run, no root in use, rendered or last sent to a subscriber bears a distrusted fingerprint |
| `Distrusts.DistrustTakesHold` | trust-core/src/store.rs:10-20 | after any run, a distrust that is loaded takes hold of the set and of what every listed subscriber was sent last exactly when the set can be composed then, or held no such root |
| `Distrusts.CertsDirHeeds` | trustd/src/render.rs:99-181 | a rendering of roots none of which is distrusted holds a distrusted certificate exactly when a comment spells one |
| `Distrusts.NoneSpellsHeeds` | trustd/src/render.rs:99-111 | comments that spell no block spell no distrusted certificate, so the exact read-back condition is enough |
| `Distrusts.DistrustReachesFiles` | trustd/src/main.rs:147-211 | after any run, a distrust that is loaded takes hold of the single file, and of the directory where files are rendered, exactly when they are written or taken away then and no comment spells a distrusted certificate, or held none; a withdrawal that fails leaves no more of them than there were |
| `Distrusts.DistrustWaits` | trust-core/src/store.rs:10-14 | a run whose only root is distrusted and stays in use and in the file, since the bundle cannot be read |
| `Leftovers.StepLeaves` | trustd/src/render.rs:125-199 | while files are rendered, a step leaves the directory and the single file as they were or whole, or no directory |
| `Leftovers.NeverPartial` | trust-core/src/lib.rs:262-264 | over any run in which files are rendered, whatever fails, the live directory is absent, as it first was or wholly the rendering of one composed set, and so is the single file but for absence |
| `Leftovers.PartPossible` | trustd/src/render.rs:125-141 | a rendering can leave part of a store exactly when it withdraws two files or more |
| `Leftovers.StepLeavesPart` | trustd/src/render.rs:125-199 | a step that leaves part of a store withdraws one of two files or more, leaves some but not all of them, and ends in degraded health |
| `Leftovers.PartExactly` | trust-core/src/lib.rs:262-264 | given what a run finds, some outcome of its renderings leaves part of a store exactly when an event withdraws the files, and before it an event rendered roots or there were two files to begin with |
| `Service.Trustd.Degrade` | trustd/src/main.rs:180-184 | health and message change, and nothing else |
| `Service.Trustd.RenderFiles` | trustd/src/main.rs:186-211 | the step `AfterRender`; success means the files are exactly the rendering, and without faults it succeeds |
| `Service.Trustd.SendEach` | trustd/src/main.rs:219-229 | the loop sends every subscriber its own snapshot and keeps exactly those whose sockets took all of it, in their order |
| `Service.Trustd.Publish` | trustd/src/main.rs:214-231 | over the sockets themselves, publishing is the step `AfterPublish`, with the sends their schedules allow |
| `Service.Trustd.Configure` | trustd/src/main.rs:109-120 | the configuration and the descriptor requests are checked against are replaced together |
| `Service.Trustd.Adopt` | trustd/src/main.rs:149-157 | the new set becomes current and its difference from the last is recorded |
| `Service.Trustd.Announce` | trustd/src/main.rs:166-177 | a new generation is rendered and then published |
| `Service.Trustd.Recompose` | trustd/src/main.rs:136-178 | composing, adopting and, where something differs, announcing are the rest of the step `AfterRefresh` |
| `Service.Trustd.Refresh` | trustd/src/main.rs:108-178 | a refresh over the daemon's own fields, store directory and sockets is the step `AfterRefresh`; without faults it ends in good health exactly when what it finds can be composed |
| `Service.Trustd.Handle` | trustd/src/main.rs:233-267 | each request takes its step of the model and its answer is pushed to the connection: a listing with exactly the roots and the fields asked for, a status with each field the daemon's own; a subscriber is kept exactly when the whole set was taken |
| `Service.MessagesTell` | trustd/src/main.rs:108-211 | the message of a degraded store says which step failed |
| `Service.Trustd.Remove` | trustd/src/main.rs:448-457 | a departure is the removal of one subscriber |
| `Service.ComposedDigits` | trust-core/src/cert.rs:408-413 | the hashes of composed roots are eight digits, as names of hashed files need |
| `Framing.Stream.WriteFrame` | trustd/src/control.rs:251-277 | whatever the peer takes at a time, the bytes it has taken, the verdict and the rest of the schedule are those of `Taking`, which is whole exactly when all is taken; a client's `send` (libtrust/src/channel.rs:118-145) is the same loop with a lower ceiling |
| `Framing.PatientTakes` | trustd/src/control.rs:259-276 | a peer that keeps taking something takes the whole frame, with the turns left that it did not need |
| `Framing.Channel.Receive` | libtrust/src/channel.rs:147-184 | the read loop over the kept `incoming` computes `Received` |
| `Framing.Received` | libtrust/src/channel.rs:147-184 | never more than one frame is held, so what is still wanted can be counted |
| `Framing.ReceivedIsFirst` | libtrust/src/channel.rs:147-184 | for every fragmentation: a success is the next reply sent, whole, and consumes exactly its frame; a deadline loses nothing; a failure on a sound connection means nothing acceptable was left |
| `Framing.ReceivedMakesProgress` | libtrust/src/channel.rs:147-184 | while bytes keep arriving every turn takes one at least, and one turn more ends the frame |
| `Transfer.Respond` | trustd/src/control.rs:237-249 | the bytes of one reply that are taken, and the verdict, are those of `Pushed` |
| `Transfer.SendRoots` | trustd/src/control.rs:282-306 | the chunk loop's bytes and verdict are those of `Pushed` over the snapshot's chunks |
| `Transfer.ChunkSizes` | trustd/src/control.rs:282-306 | a snapshot is cut into chunks of 24 roots and a last of no more, which alone says that none follows |
| `Transfer.PushedIsPrefix` | trustd/src/control.rs:282-306 | what is taken is a prefix of the frames, and the whole of them exactly when the verdict is good |
| `Transfer.PatientPeersAreServed` | trustd/src/control.rs:282-306 | a peer that keeps taking something is sent the whole snapshot |
| `Subscriptions.AssembleChunks` | libtrust/src/lib.rs:340-358 | the draining loop computes `Assemble` |
| `Subscriptions.ReceiveComplete` | libtrust/src/lib.rs:312-359 | the loop over replies and pending chunks computes `Completed` |
| `Subscriptions.CompletedAnswers` | libtrust/src/lib.rs:291-359 | a status for a status request, a done for a reload and a refusal for any end a call as they are; chunks for a listing or a subscription are taken up to 16 MiB; every other pairing fails |
| `Subscriptions.RefusalsAreDenied` | libtrust/src/lib.rs:270-290 | a refusal is given to the caller as one, with its message, and anything else as it is |
| `Subscriptions.Subscription.Next` | libtrust/src/lib.rs:646-675 | one call is the step `Update`: a deadline keeps what has come in, any other failure closes |
| `Delivery.ChunksAssemble` | libtrust/src/lib.rs:340-358 | the chunks of a snapshot assemble to that snapshot |
| `Delivery.CompletedDelivers` | libtrust/src/lib.rs:312-359 | a completed reply is the next snapshot sent; a deadline keeps the place in it; a failure on a sound connection means none was due |
| `Delivery.OneCall` | libtrust/src/lib.rs:646-675 | the same for one call of a subscription, with what stays due after it |
| `Delivery.RunDelivers` | libtrust/src/lib.rs:646-675 | over any run of calls the snapshots given are a prefix of those due, and an unbroken subscription closes only when it has given them all |
| `Delivery.CallDelivers` | libtrust/src/lib.rs:646-675 | with time enough one call gives a snapshot exactly when one is due |
| `Delivery.SendingExtends` | trustd/src/control.rs:282-306 | a snapshot sent whole joins those sent, and one cut short ends them |
| `Delivery.ClientIsGivenWhatWasSent` | libtrust/src/lib.rs:646-675 | from daemon to client: whatever the fragmentation, the timeouts and the point where writing stops, a client is given a prefix of the snapshots sent whole, never truncated, merged or replayed |
| `Delivery.OversizeCloses` | libtrust/src/lib.rs:311-359 | a root whose message passes 65,536 bytes fits no client, and the call that meets it closes the subscription |
| `Assembly.RootsOf` | trust-core/src/lib.rs:598-630 | the loop over replies computes `RootsIn` |
| `Assembly.BoundedCall` | trust-client-core/src/lib.rs:81-99 | the collecting loop computes `Collected` |
| `Assembly.AssemblersAgree` | trust-client-core/src/lib.rs:81-99 | on every stream and schedule, collecting replies and reading roots from them gives (g, roots) exactly when completing the reply chunk by chunk does |
| `Requests.Client.Read` | trustd/src/control.rs:198-233 | the read loop over the kept buffer computes `AfterRead`, with the reply a refused request is sent |
| `Requests.RequestArrivesWhole` | trustd/src/control.rs:198-233 | however one request is split, within calls and between them, nothing is answered before its last byte, and then the answer is what it decodes to |
| `Requests.OversizeIsRefused` | trustd/src/control.rs:205-221 | a request of more than 65,536 bytes is refused as such once its header has come, however it is split |
| `Wire.ReadStrList` | trust-core/src/lib.rs:473-488 | the loop reads a list of strings, and refuses a count past what is left |
| `Wire.ForEachField` | trust-core/src/lib.rs:501-516 | the loop over fields, with the keys seen, computes `ReadFields` |
| `WireForms.MessageFills` | trust-core/src/lib.rs:501-516 | a message of readable fields under different keys fills the slots they say and leaves what follows it |
| `RoundTrips.RequestRoundTrips` | trust-core/src/lib.rs:206-251 | decoding inverts encoding for every request |
| `RoundTrips.RequestReads` | trust-core/src/lib.rs:228-251 | a request's fields in any order, with any unknown fields between, decode to that request |
| `RoundTrips.ReplyRoundTrips` | trust-core/src/lib.rs:327-452 | decoding inverts encoding for every reply |
| `RoundTrips.ReplyReads` | trust-core/src/lib.rs:380-452 | the same for replies, with any form of each root they carry |
| `RoundTrips.RootReads` | trust-core/src/lib.rs:435-452 | a root's fields in any order, with any unknown fields between, decode to that root |
| `RoundTrips.RepeatedKeysAreRefused` | trust-core/src/lib.rs:501-516 | a key given twice is refused in a request, a reply and a root, whatever else is there |
| `RoundTrips.RepeatInRootRefusesReply` | trust-core/src/lib.rs:380-452 | a reply is refused when any root it carries gives a key twice, whatever the other roots and fields are |
| `Decoding.RequestSays` | trust-core/src/lib.rs:228-251 | what a request says, whichever of its fields are there; a query that is missing or unknown is refused |
| `Decoding.RootSays` | trust-core/src/lib.rs:435-452 | what a root says, field by field, whichever of them are there |
| `Decoding.ReplySays` | trust-core/src/lib.rs:380-432 | what a reply says, whichever of its fields are there: a refusal with its message, a chunk, a status field by field, or done, and no reply without "ok" |
| `Decoding.RequestOnWire` | trust-core/src/lib.rs:206-226 | each request on the wire, token by token |
| `Decoding.WordsOnWire` | trust-core/src/lib.rs:153-158 | the words for the sources and for health |
| `Registry.WriteMultiText` | trust-client-core/src/lib.rs:258-264 | the loop writes each text and a zero, and a last zero |
| `Registry.MultiReadsBack` | trustd/src/registry_reader.rs:48-56 | a list of purposes reads back as its nonempty members in order exactly when none holds a NUL |
| `Registry.SplitRejoins` | trustd/src/registry_reader.rs:48-54 | a list is cut at its zeros and loses nothing else |
| `Registry.NonEmptyParts` | trustd/src/registry_reader.rs:48-54 | the empty parts of a list go and the others stay, in order |
| `Registry.ValuesRead` | trustd/src/registry_reader.rs:45-66 | text is read up to its first zero, as one, and a value of no text type as nothing |
| `Loading.PurposesRead` | trustd/src/config.rs:100 | purposes that are not there or of no text type are none, and a single text is one |
| `Registry.AddKey.Add` | trust-client-core/src/lib.rs:237-277 | for a usable name and a certificate that parses, the registry passes only forward through the stages of `Written`, certificate last, and reaches the last exactly when no write is refused |
| `Registry.UsableNameIs` | trust-client-core/src/lib.rs:237-239 | a name is usable exactly when some character of it is not white space and none is a slash or a backslash |
| `Loading.Load` | trustd/src/config.rs:82-107 | the loop over enumerated keys, each read in turn, computes `Loaded` |
| `Loading.LoadIgnoresOrder` | trustd/src/config.rs:82-128 | the order of enumeration makes no difference |
| `Loading.LoadIsExact` | trustd/src/config.rs:82-128 | a load of keys that stand fails exactly when a key with a certificate has purposes that are no text, and otherwise gives exactly the keys with a nonempty binary certificate, by name |
| `Loading.BetweenWrites` | trust-client-core/src/lib.rs:257-275 | the key half written reads as before or as after exactly when the addition changes it at once |
| `Loading.AddIsAtomic` | trustd/src/config.rs:82-107 | in every interleaving of such an addition's writes with a load's reads, the load is that of the registry wholly before the addition or wholly after it |
| `Loading.AtomicExactly` | trustd/src/config.rs:82-107 | an addition is seen whole in every interleaving and order exactly when it changes its key at once or another key makes every load fail |
| `Loading.PassingIsProgress` | trust-client-core/src/lib.rs:250-277 | the states an addition leaves behind it, read ever later, are its writes in their order |
| `Loading.LoadDuringAdd` | trustd/src/config.rs:82-107 | so a load that reads the states `AddKey.Add` passes through finds what was before or all that was written |
| `Loading.AddedIsLoaded` | trust-client-core/src/lib.rs:250-277 | under any name, fresh or not, the load afterwards succeeds exactly when every other key can be read and the purposes are text, and then has exactly the certificate written, with the nonempty purposes given or, where none are, those already there |
| `Loading.ReplacingCanBeTorn` | trust-client-core/src/lib.rs:250-277 | over a name already there, a load can find what was there neither before nor after |
| `Loading.LoadDistrusts` | trustd/src/config.rs:111-129 | the loop, sort and dedup compute `LoadedDistrusts` |
| `Loading.DistrustsExact` | trustd/src/config.rs:111-129 | the distrusts loaded are exactly the texts of 64 small hex digits that some name spells, whatever its case and separators, each once, in order |
| `Loading.DistrustsIgnoreSpelling` | trustd/src/config.rs:111-129 | names that are the same but for order, repetition, case and separators load the same list |
| `BundleStamp.NothingMissedExactly` | trustd/src/main.rs:121-131 | in every interleaving a settled daemon has used the text that is there, exactly when no stamp comes back after other text |
| `BundleStamp.PutBackIsMissed` | trustd/src/main.rs:481-487 | that distinct texts have distinct stamps is not enough |
| `BundleStamp.FreshStampsMissNothing` | trustd/src/render.rs:384-395 | stamps never seen before are enough |
| `Layout.Pass` | tools/generate-api-types.py:116-121 | one pass takes each structure in turn, moves it if it is ready then, and keeps the rest in order |
| `Layout.Order` | tools/generate-api-types.py:114-124 | the pass ends with every structure after those it contains by value exactly when every type is known and none contains itself, and raises otherwise |
| `Layout.SimpleIs` | tools/generate-api-types.py:100-121 | pointers and the eight numeric types need no structure before them |
| `Layout.Needed` | tools/generate-api-types.py:39-46 | the names kept are exactly those a chain of calls reaches from the roots |
| `EndToEnd.RepliesSurvive` | trust-core/src/lib.rs:327-432 | replies that MessagePack has room for are read back by the codec the transfer theorems speak of |
| `EndToEnd.RequestsSurvive` | trust-core/src/lib.rs:206-251 | a request within the ceiling is taken by the daemon as that request, however its frame arrives |
| `EndToEnd.SubscribedClientsAreCurrent` | trustd/src/main.rs:214-258 | after any run, a client reading the bytes that a listed subscriber's socket took is given the snapshots sent on it in order, and when it has them all and they fit, the last is the current set, told root by root and field by field |
| `EndToEnd.FilesHoldTheCurrentSet` | trustd/src/main.rs:186-211 | in good health both bundle paths read back as exactly the certificates of the roots with the purpose "ServerAuth", in any case and in order, exactly when no comment lines spell a block, and every hash finds exactly its own |

## Left out

- X.509 parsing, the CA and expiry checks, descriptions, key naming, SHA-1 and SHA-256: a function parameter; nothing is
  claimed of agreement with OpenSSL's hashes.
- MessagePack bytes: tokens, with packing as a parameter. A number written as unsigned is read only as unsigned, and a
  list's count is not cut to 32 bits; what packing must give back is asked only of messages it has room for.
- Wire.ReadStrList: what is left of the message is counted in tokens, not bytes, so a count that cannot be met is refused
  in both but may be named differently.
- RoundTrips.ReplyRoundTrips: the writer and the local variables a decoder fills are modelled as values, a token list and
  a map of slots; only the loops over fields and lists are methods.
- Path tests that fail with an error rather than an answer, temporary files and mode bits: a file write is whole or not
  at all.
- Service.Trustd.Remove: some subscriber leaves; which one a poll slot names after a publication is not modelled.
- Service.Trustd.Handle: whether a request is permitted is an input, since the kernel decides it; error texts, here and for
  malformed requests, are reduced to their kind.
- Generations are unbounded; the original counts in 64 bits.
- Sockets, polling, signals, clocks, descriptors and logging: schedules of outcomes.
- Framing.Channel.Receive: the peer's bytes are fixed beforehand and `NotReady` stands for any not yet sent; a read that
  finds none left is the end of the stream.
- Requests.RequestArrivesWhole: one frame on a connection that stays open; what is answered to pipelined or half-closed
  requests depends on how they are split.
- A call with a timeout of zero, refused before anything is read.
- Taking an addition back, which deletes its key.
- Loading.Load: the two plain settings (`GenerateLinuxTrustFiles`, `ControlSecurity`) and enumeration errors; a load that
  fails gives nothing, whatever the reason.
- BundleStamp.NothingMissedExactly: a stamp's length is not tied to the text's.
- Layout.Needed: the cutting of unreached functions out of the text.
- The C ABI, arenas, generated views, the `trust` command, the style tools and the second copy of the client channel.
