# A verified model of goca

goca is a certificate authority whose replicas share one SQL database. This project models the parts of
it whose correctness depends on interleavings, on graph-shaped state, or on exact text and byte formats,
and proves what they promise.

- **Webhook leases** (`WebhookRows`, `WebhookProtocol`, `WebhookDispatch`): the delivery table, the claim
  statement at the grain of snapshot, row lock, re-check and commit, and dispatchers that answer claims, late
  or in time.
- **ACME** (`AcmeNonces`, `AcmeRegistration`, `AcmeNames`, `AcmeOrders`, `AcmeRules`, `AcmeServer`): nonces,
  account slots, what an order may name, concurrent and crashing finalize requests (RFC 8555). `AcmeOrders`
  takes the rules about names as functions with stated laws; `AcmeRules` proves goca's own rules lawful.
- **gocactl apply** (`ApplyManifest`, `ApplyPlan`, `ApplyResume`, `ApplyNumeric`, `ApplyServer`): validating a
  manifest, planning, executing, stopping and resuming, and what names that read as ids do to it.
- **CA forest** (`CaForest`, `CaAuthorities`, `CaRevocation`, `CaRetirement`): the four operations that write
  parent links, the chain walk, the recursive retirement of an authority, and issuing while it goes on.
- **Certificate lifecycle** (`Lifetimes`, `RenewalHistory`): day arithmetic and the renewal lineage.
- **Sealed secrets** (`Envelope`, `SecretVersions`, `SecretVault`): envelope bytes, the text that binds a
  ciphertext to its position, and version transactions.
- **Codecs** (`Rebind`, `Sans`): the SQL placeholder rewriter, and printing and reading SANs.
- `Common`, `Text` and `Numerals` hold the shared types and the string functions of the Go library.

What an operation answers is said twice: by the function it computes, and by a lemma or a contract that tells each
answer, refusals included, in terms of the input alone. Members called `...Exact` are such lemmas.

State changed in place is a class with methods; each method is proved against a function or an action of
a state machine, and the state machines carry the invariants. A concurrent protocol is a set of atomic
steps with an invariant that every step keeps, so the theorems hold of every interleaving and of crashes
between any two steps.

`dafny verify dfyconfig.toml` checks the whole project.

## Where a promise fails

Each of these is proved with a concrete input or run, next to the exact condition under which it holds.

- A row of `webhook_deliveries` that is `delivered` or `dead` can be changed by a late answer
  (`WebhookDispatch.LateAnswerReopens`). It stays as it is in every future exactly if no claim of it is still
  to be answered (`WebhookDispatch.FinalIsFinalIff`). Nothing in the dispatcher keeps answers prompt: a tick
  claims up to a hundred rows at once and delivers them one after the other, and with the default timeout and
  stale period a slow batch is late (`WebhookDispatch.BatchIsPromptIff`).
- The wait before a retry is the backoff shifted left in 64 bits. It is the documented doubling, capped, exactly
  while the doubling fits or wraps to more than the cap (`WebhookDispatch.DelayIsDoubledIff`); with the default
  backoff the thirtieth failure would not wait at all (`WebhookDispatch.ThirtiethFailureWaitsNothing`). The default
  of five attempts never gets there.
- The account cap can be exceeded: writing an account is an INSERT and a read-back, and if only the read-back
  fails the slot is given back although the account exists (`AcmeRegistration.ReadBackFailureExceedsCap`).
  Without a further such release the cap holds in every future exactly if account_count is at least the number of
  accounts plus that of registrations holding a slot without an account (`AcmeRegistration.CapHoldsIff`).
- An ACME order that is `invalid` can still become `valid`: of two requests that load it, one claims it, the other
  is then rejected and marks it invalid, and the first goes on to issue and link
  (`AcmeOrders.InvalidBecomesValid`; under goca's own rules, for the host "a", `AcmeRules.InvalidThenValid`).
  `invalid` is final exactly when no request in flight holds the order (`AcmeOrders.InvalidIsFinalIff`).
- A wildcard-only pattern passes the "matches every hostname" refusal exactly if blanks are left at an end of
  its normal form, as in "* ." (`AcmeNames.WildcardRefusalMissesIff`).
- Applying a manifest entry without labels to a secret that has some never converges, because the PATCH
  handler keeps the labels when it is sent null (internal/web/api_secrets.go:109-140), although the planner
  lists the difference (`ApplyResume.ConvergesIff`).
- Applying an entry can change a secret it does not name: the server reads a reference as an id before it reads
  it as a name (internal/web/api_secrets.go:60-71), so an entry "7" works on the secret whose id is 7
  (`ApplyNumeric.SevenMisleads`). Applying one entry leaves the others untouched exactly if its name is no other
  secret's id, or is that of a certificate, which no entry can change (`ApplyNumeric.OthersUntouchedIff`). A whole
  manifest, applied and then applied again in any edited form, leaves every secret at its goal exactly if no name
  of it, those of certificates apart, reads as an id that another secret has or is given on the way
  (`ApplyNumeric.GoalsReachedIff`); the order of the entries can decide that (`ApplyNumeric.OrderDecides`).
- Parent links can form a loop: the UPDATE of a completion does not ask whether its row was completed meanwhile
  (`CaForest.LateCompletionMakesCycle`). A run stays free of loops exactly if no completion links a row to
  itself or to something below it (`CaForest.RunAcyclicIff`).
- A retired authority can come back by itself: CompleteCA writes the status without looking at it, so a completion
  that found the row pending activates it after it was disabled (`CaForest.DisabledComesBack`). A disabled row stays
  so until activated by hand exactly if no such completion is running (`CaForest.DisabledStaysIff`).
- A retirement of a row that is its own ancestor, such as the row that a late completion links below itself, would
  never end; of any other it does (`CaForest.DescentEndsIff`).
- A certificate's expiry is cut to whole seconds, so it covers the expiry an order asked for exactly when that is a
  whole second (`Lifetimes.EncodedExpiryCoversIff`); half a second past one is lost (`Lifetimes.HalfSecondIsLost`).
- Opening an envelope indexes out of bounds exactly for twelve lengths from the header size on
  (`Envelope.OpenPanicsIff`), as with the algorithm byte and 1212 zero bytes (`Envelope.PanicAt`). It takes a damaged
  row: what was stored by a Put and left alone opens (`SecretVersions.RowOpens`).
- SANs survive printing and reading exactly when no DNS value, e-mail value or printed URI holds a list
  separator or a space at its ends (`Sans.RoundTripIff`); `\v` is not a separator but is trimmed
  (`Sans.TrailingSpaceIsLost`), and a URI with a comma is cut (`Sans.UriWithCommaIsCut`).

## Model

| member | source | states |
|---|---|---|
| WebhookRows.DueIdsExact | internal/store/webhook.go:279-287 | the candidate scan finds every row that is pending or retryable and not freshly claimed, each once, by ascending id, and no other row |
| WebhookRows.DueExact | internal/store/webhook.go:279-287 | when a row may be claimed: pending at any instant, failed from its retry time on, delivered and dead never, and only unclaimed or with a stale claim |
| WebhookRows.RecordedExact | internal/store/webhook.go:311-333 | after a refusal with a retry time the row is due from exactly then on, after one without and after an acceptance never; attempts, code and message are those of the result |
| WebhookRows.PickedExact | internal/store/webhook.go:269-305 | a claim takes a row exactly if it is due and fewer due rows than the limit, a hundred by default, come before it |
| WebhookRows.StampingLeavesTheRest | internal/store/webhook.go:269-305 | stamping the first n due rows leaves exactly the later ones due |
| WebhookRows.DrainIsExhaustive | internal/store/webhook.go:269-305 | repeated claims at one instant hand out every due delivery exactly once, in batches that are full except perhaps the last |
| WebhookRows.NonPositiveStaleNeverDrains | internal/store/webhook.go:273-288 | with a stale period that is not positive the same batch is claimed for ever |
| WebhookRows.DeliveryTable.Create | internal/store/webhook.go:189-200 | a new row is pending, due at every instant, unclaimed, with no attempts, and carries what was given |
| WebhookRows.DeliveryTable.ClaimDue | internal/store/webhook.go:269-305 | without other claimants exactly the due rows with fewer due rows than the limit before them are stamped with the instant and returned, by ascending id, with their own content; no other row changes |
| WebhookRows.DeliveryTable.RecordResult | internal/store/webhook.go:311-333 | an acceptance ends the delivery; a refusal counts an attempt, and the row is due from the retry time on or, without one, never; code, message and the cleared claim are stated, what the delivery is about stays |
| WebhookProtocol.CandidatesMayBePicked | internal/store/webhook.go:279-287 | the first due rows up to the limit are one of the choices a claim's subquery has; rows that others hold may be passed over for later ones |
| WebhookProtocol.StepKeepsInvariant | internal/store/webhook.go:250-305 | whatever due rows each claim picks, every step of any claimant keeps: a row lock has one holder, a row that passed the re-check stays due until its commit, claims without a result between them are spaced |
| WebhookProtocol.ClaimStaysWithinItsLimit | internal/store/webhook.go:269-305 | whatever the others do while a claim runs, it writes at most its limit of rows, each of them due in the snapshot its subquery read |
| WebhookProtocol.ClaimCanCommit | internal/store/webhook.go:269-305 | no claim can be kept from committing: locked rows are skipped, not waited for |
| WebhookProtocol.SuccessiveClaimsAreSpaced | internal/store/webhook.go:269-305 | in every interleaving two successive claims of a delivery with no result between them are at least the stale period apart |
| WebhookProtocol.AttemptsCountRefusals | internal/store/webhook.go:311-333 | attempts equals the refusals recorded, in every run |
| WebhookProtocol.RowTellsHistory | internal/store/webhook.go:311-333 | in every run a row's status, code, message and retry time are those of the last result recorded for it, its claim that of the last event |
| WebhookProtocol.ClaimsWaitForRetry | internal/store/webhook.go:269-305 | in every interleaving nobody claims a delivery after it was delivered or given up, nor before the retry time the last refusal set |
| WebhookProtocol.WithoutOuterConditionDoubleClaim | internal/store/webhook.go:256-268 | one interleaving of two claimants claims a delivery twice without the repeated condition and once with it |
| WebhookDispatch.MoveKeepsConsistent | internal/webhooks/dispatcher.go:169-255 | however late answers come, or if they never do: each unanswered claim is a past event of its row, no two are the same, and one that nothing has followed is still the row's claim |
| WebhookDispatch.AnsweredAtMostOnce | internal/webhooks/dispatcher.go:169-226 | a claim that was answered, or whose dispatcher died, is answered by no later move |
| WebhookDispatch.FinalRowChangesIff | internal/store/webhook.go:311-333 | a move changes a final row exactly if it answers a claim the row no longer carries with an outcome that differs from what the row holds |
| WebhookDispatch.FinalIsFinalIff | internal/store/webhook.go:311-333 | a final row stays as it is in every future exactly if no claim of it is still to be answered |
| WebhookDispatch.FinalRowsAreAbsorbing | internal/store/webhook.go:311-333 | in every life whose answers find their own claim, a delivered or dead row never changes again |
| WebhookDispatch.AttemptsNeverExceedTheMaximum | internal/webhooks/dispatcher.go:230-245 | in such lives a delivery is refused at most the maximum number of times and is dead exactly when it has been refused that often |
| WebhookDispatch.PromptIsAttentive | internal/webhooks/dispatcher.go:69-76 | answers within the stale period always find their own claim |
| WebhookDispatch.BatchIsPromptIff | internal/webhooks/dispatcher.go:169-178 | however long the deliveries of a claimed batch take within the timeout, its life is one of prompt answers exactly if the whole batch fits what is left of the stale period |
| WebhookDispatch.WrappedExact | internal/webhooks/dispatcher.go:230-242 | the shifted duration is read as a 64-bit two's complement number |
| WebhookDispatch.DelayIsDoubledIff | internal/webhooks/dispatcher.go:230-242 | the wait after the nth failure is the doubled backoff, capped, exactly while the doubling fits 64 bits or wraps to more than the cap |
| WebhookDispatch.ThirtiethFailureWaitsNothing | internal/webhooks/dispatcher.go:230-242 | with the default backoff the thirtieth delay is negative |
| WebhookDispatch.LateAnswerReopens | internal/store/webhook.go:311-333 | one dispatcher claims, the stale period passes, another claims and delivers, and the first one's refusal makes the delivered row due again once its delay is over |
| AcmeNonces.NonceTable.New | internal/acme/nonce.go:40-53 | a nonce is recorded for ten minutes unless the value exists |
| AcmeNonces.NonceTable.Consume | internal/acme/nonce.go:56-62 | true only when an unexpired row is deleted; everything else stays |
| AcmeNonces.NonceTable.PurgeExpired | internal/store/acme.go:739-745 | drops exactly the expired rows and counts them |
| AcmeNonces.RedemptionUsesOwnIssue | internal/store/acme.go:719-737 | each accepted redemption uses up an earlier issue of its own, unexpired at that moment, that no later redemption can use |
| AcmeNonces.AcceptedAtMostOnce | internal/acme/nonce.go:40-62 | a nonce issued once is accepted at most once, whatever the replicas interleave (RFC 8555 section 6.5) |
| AcmeNonces.PurgingIsInvisible | internal/store/acme.go:739-745 | with fresh nonces and a monotone clock, arbitrary purges change no answer a client sees |
| AcmeNonces.ClockSkewMakesPurgingVisible | internal/store/acme.go:739-745 | with a clock that steps back a purge refuses a nonce that would have been accepted |
| AcmeRegistration.StepKeepsInvariant | internal/acme/service.go:215-244 | every step of any registration, with crashes and with statements that commit and report failure, conserves slots and keeps thumbprints unique |
| AcmeRegistration.SlotsInEveryRun | internal/store/acme.go:196-214 | account_count is accounts plus slots in flight plus slots lost less slots given back twice; the accounts exceed the cap by at most the latter, in every interleaving |
| AcmeRegistration.CapHoldsIff | internal/store/acme.go:196-214 | if no further slot is given back twice, the cap holds in every future exactly if account_count is at least the accounts plus the registrations that hold a slot without an account row |
| AcmeRegistration.CapHoldsInHonestRuns | internal/store/acme.go:196-214 | from the start, the cap holds in every interleaving in which no slot is given back twice |
| AcmeRegistration.ReadBackFailureExceedsCap | internal/store/acme.go:258-268 | a stored account whose read-back fails gives its slot back, and a cap of one ends with two accounts |
| AcmeRegistration.OneAccountPerKey | internal/store/store.go:182-191 | no two accounts share a key, in every interleaving |
| AcmeRegistration.NoSlotLostWithoutFailure | internal/acme/service.go:215-244 | slots are lost only by crashes and by statements whose failure is reported |
| AcmeRegistration.ReleaseTakesOneOff | internal/store/acme.go:210-214 | a release by a registration in flight takes exactly one off, never meeting the guard at zero |
| AcmeRegistration.Registrar.ReserveSlot | internal/store/acme.go:196-206 | one statement checks the cap and counts the slot |
| AcmeRegistration.Registrar.ReleaseSlot | internal/store/acme.go:210-214 | one slot less, unless the count is zero |
| AcmeRegistration.Registrar.NewAccount | internal/acme/service.go:144-252 | a known key gets its account or, deactivated, a refusal, and takes no slot; a full or unusable credential is refused; a write that reports an error gives the slot back, also when the account was stored |
| AcmeRegistration.DeactivatedIsTold | internal/acme/service.go:168-182 | once its account is deactivated, a key is told so whatever it asks for |
| AcmeRegistration.KnownKeyGivesSlotBack | internal/acme/service.go:228-244 | a key that is registered by then makes the INSERT fail, and the slot goes back |
| AcmeNames.ValidLabel | internal/acme/policy.go:73-89 | accepts a label exactly when it is 1 to 63 characters of a-z, 0-9 and '-', with no '-' at either end |
| AcmeNames.ValidDnsIdentifier | internal/acme/policy.go:50-71 | the first failing check of the identifier, in the source's order |
| AcmeNames.HostCheckExact | internal/acme/policy.go:50-89 | accepted exactly when the value is dot-joined valid labels, with at most one leading "*." over at least two labels, no address, at most 253 characters (RFC 1123 section 2.1) |
| AcmeNames.HostFaults | internal/acme/policy.go:50-71 | which fault of a name is reported, in the order of the checks |
| AcmeNames.LabelFaults | internal/acme/policy.go:73-89 | which fault of a label is reported |
| AcmeNames.HostNameIsCanonical | internal/acme/policy.go:50-89 | an accepted identifier is not blank, is trimmed and is lower case |
| AcmeNames.NormalizeDomainPatterns | internal/acme/domain.go:43-62 | the loop computes the normalized list or the first error |
| AcmeNames.NormalizedExact | internal/acme/domain.go:43-62 | the list holds exactly the normal forms of the non-blank patterns, each once, all well formed and none only wildcards |
| AcmeNames.NormalizeFirstFault | internal/acme/domain.go:43-62 | a list is refused exactly if a pattern of it is malformed or all wildcards, and then for the first such one |
| AcmeNames.DomainAllowedExact | internal/acme/domain.go:19-34 | without patterns every name is allowed, with some exactly those that one of them matches, trimmed and in lower case, the name without a final dot |
| AcmeNames.CredentialScopeExact | internal/acme/eab_admin.go:104-118 | a created credential admits a name exactly if any domain was asked for or one of the patterns as given admits it |
| AcmeNames.CredentialScopeRefusals | internal/acme/eab_admin.go:104-118 | refused for an offending pattern, for naming no domain without asking for any, or for doing both |
| AcmeNames.WildcardRefusalMissesIff | internal/acme/domain.go:47-57 | a pattern that the scope check reads as wildcards only passes the refusal exactly if blanks are left at an end of its normal form |
| AcmeNames.WildcardsSlipThroughIff | internal/acme/domain.go:43-62 | a stored list holds a pattern read as wildcards only exactly if one of the patterns given slips through that way |
| AcmeNames.WildcardRefusalMissesBlank | internal/acme/domain.go:47-57 | "* ." is stored as "* ", which the scope check reads as "*" |
| AcmeNames.CollectIdentifiers | internal/acme/service.go:388-409 | the loop accepts exactly a non-empty list whose entries all have the type "dns" or none and a name the credential admits, and returns the names in order; otherwise the fault of the first entry that has one |
| AcmeNames.IdentifierCheckExact | internal/acme/service.go:389-409 | one entry: accepted exactly with the type "dns" or none and an admitted name; otherwise the type, the empty value, the name or the scope is at fault, in this order |
| AcmeNames.OrderIdentifiersExact | internal/acme/service.go:380-411 | a whole request: accepted exactly if it names something and every entry is acceptable; the error is that of the first entry that is not |
| AcmeNames.IdentifiersAreGranted | internal/acme/service.go:388-409 | each accepted identifier is the canonical form of the one requested, a valid host name, admitted by the credential, in the requested order |
| AcmeNames.SameStringSet | internal/acme/service.go:954-964 | true exactly for equal sets |
| AcmeNames.CheckCsrNames | internal/acme/service.go:607-647 | the CSR checks in the source's order and the common name the certificate will carry |
| AcmeNames.CsrCheckExact | internal/acme/service.go:607-648 | accepted exactly if the DNS names in lower case are the order's, no other kind is asked for, and a common name, if given, is one of them; the first name stands in for a blank one |
| AcmeNames.ProfileNames | internal/pki/ca.go:47-58 | the names a profile goes by |
| AcmeNames.IssueNamesExact | internal/pki/ca.go:241-262 | the subject, names and CA flag that issuing puts into a certificate, for every profile |
| AcmeNames.FinalizedNamesExact | internal/acme/service.go:607-691 | the certificate's lower-cased DNS names are exactly the order's identifiers, no other SAN kind, a subject that is only a common name from that set, never a CA |
| AcmeOrders.StepKeepsInvariant | internal/acme/service.go:569-700 | every step of any finalize request, also of one whose certificate is stored but not read back, of any administrator and of other issuers keeps the order invariant |
| AcmeOrders.OneCertificatePerOrder | internal/store/acme.go:491-522 | in every run an order is claimed at most once, at most one certificate is issued for it, and it is valid exactly when linked to that one |
| AcmeOrders.FirstClaimWins | internal/store/acme.go:501-514 | of two requests past every check of one ready order the first to claim holds it; the other is dropped and changes nothing |
| AcmeOrders.IssuedNamesAreAdmitted | internal/acme/service.go:607-700 | under any lawful rules, in every run a certificate issued through ACME names exactly its order's identifiers, each admitted by the credential |
| AcmeOrders.LinksAreUnique | internal/store/acme.go:517-522 | no certificate is linked to two orders |
| AcmeOrders.OrderLookupExact | internal/store/acme.go:448-456 | the lookup by certificate returns the one order linked to it, and nothing exactly if there is none |
| AcmeOrders.ValidIsFinal | internal/store/acme.go:491-522 | a valid order and its link never change again |
| AcmeOrders.HolderRevives | internal/store/acme.go:517-522 | a request that holds an order can make it valid whatever its status was set to |
| AcmeOrders.LoserInvalidates | internal/acme/service.go:587-643 | two requests load one order; one claims it and the other's rejection leaves it invalid while it is held |
| AcmeOrders.InvalidBecomesValid | internal/acme/service.go:569-700 | a whole run from the empty server in which an order is invalid first and valid at the end |
| AcmeOrders.InvalidIsFinalIff | internal/store/acme.go:491-522 | an invalid order stays invalid in every future exactly when no request in flight holds it |
| AcmeOrders.DisabledCredentialStops | internal/acme/policy.go:29-41 | while a credential stays disabled only requests already past its check can still produce a certificate |
| AcmeRules.AdmitsExact | internal/acme/service.go:399-407 | what the checks of NewOrder admit is exactly the valid host names in the credential's scope |
| AcmeRules.LeafProfileIssues | internal/acme/eab_admin.go:93-104 | with a profile that CreateEAB accepts, issuing is never refused on account of the profile |
| AcmeRules.LeafProfiles | internal/acme/eab_admin.go:93-104 | a credential may have every known profile but intermediate-ca |
| AcmeRules.RulesAreLawful | internal/acme/service.go:388-409 | goca's rules satisfy every law the order machine needs |
| AcmeRules.InvalidThenValid | internal/acme/service.go:569-700 | goca's own rules let an order for the host "a" be invalid first and valid at the end |
| AcmeRules.IssuedNamesAreHostNames | internal/acme/service.go:388-691 | in every run under goca's rules an issued certificate names exactly its order's identifiers and nothing else, is no CA, and each identifier is a host name (RFC 1123 section 2.1) admitted by the credential |
| AcmeServer.Server.SetOrderError | internal/store/acme.go:491-499 | marks invalid unless valid |
| AcmeServer.Server.ClaimOrderForFinalize | internal/store/acme.go:504-513 | succeeds exactly on a ready order, which becomes processing |
| AcmeServer.Server.SetOrderCertificate | internal/store/acme.go:517-522 | links the certificate and marks valid, unconditionally |
| AcmeServer.Server.GetOrderByCertificate | internal/store/acme.go:448-456 | finds the order linked to the certificate, the only one there is |
| AcmeServer.Server.Finalize | internal/acme/service.go:569-716 | each refusal is returned exactly under its own condition, in the source's order; the order is marked invalid before the claim exactly if it is the account's own, ready, and expired or not what the CSR asks for; success exactly when every check passes, the CA works, the link is stored and the order is read back; a certificate is stored exactly if the CA stores one, with these names and this profile; the steps are a run of the concurrent machine |
| AcmeServer.DisablingStopsOrders | internal/acme/policy.go:28-41 | disabling a credential stops the orders under it at once; enabling it again restores everything |
| AcmeServer.DeactivationStopsAccount | internal/acme/service.go:280-282 | a deactivated account finalizes nothing; no other account is changed |
| ApplyManifest.KeyInjective | internal/rcli/apply_cmd.go:278-280 | the NUL-joined key tells canonical NUL-free triples apart |
| ApplyManifest.NulBreaksKeys | internal/rcli/apply_cmd.go:278-280 | with a NUL in a field two different triples share a key |
| ApplyManifest.CanonicalizedIsClean | internal/rcli/apply_cmd.go:78-87 | reading a manifest leaves every NUL-free binding trimmed, with "*" for blank fields |
| ApplyManifest.HasDuplicateBinding | internal/rcli/apply_cmd.go:115-122 | finds a repeated key exactly when there is one |
| ApplyManifest.ValidateManifest | internal/rcli/apply_cmd.go:94-125 | reports the first faulty entry with its first fault, and nothing exactly for a valid manifest |
| ApplyManifest.FaultExact | internal/rcli/apply_cmd.go:94-125 | when each fault is reported: a blank name, a name used before, the type "certificate", another type than "kv" and "file", a repeated binding |
| ApplyPlan.ValidatedIsSound | internal/rcli/apply_cmd.go:94-125 | what the planner relies on follows from validation |
| ApplyPlan.ResolveExact | internal/web/api_secrets.go:60-71 | a reference is an id if some secret has it, otherwise the trimmed name |
| ApplyPlan.BindNext | internal/rcli/apply_cmd.go:229-235 | storing the first missing binding leaves the others missing, in order |
| ApplyPlan.UnbindNext | internal/rcli/apply_cmd.go:365-377 | deleting the first row with the key of the first undeclared row removes that very row, also among duplicates, and keeps every declared one |
| ApplyPlan.MetaChangesExact | internal/rcli/apply_cmd.go:250-264 | a field is listed exactly if sending what the manifest says of it would change the secret, and none exactly if the metadata is what creating the secret would store |
| ApplyPlan.PatchSettles | internal/web/api_secrets.go:109-140 | after a patch with the planned fields only labels the manifest leaves out can still differ |
| ApplyPlan.OneAdvances | internal/rcli/apply_cmd.go:207-246 | executing the next action of one secret's plan leaves the rest of the plan and the goal unchanged; only a refused pattern fails |
| ApplyResume.ReadyRefers | internal/web/api_secrets.go:60-71 | if no declared name reads as another secret's id, present or to come, every declared name refers to its own secret, names whose type conflicts apart, whose entries do nothing |
| ApplyResume.StepKeepsReady | internal/rcli/apply_cmd.go:321-337 | executing the plan gives the missing secrets the ids expected, so that stays so |
| ApplyResume.PlanAgain | internal/rcli/apply_cmd.go:207-246 | under that condition, after any executed prefix a re-plan is the rest of the plan preceded by what that prefix could not settle |
| ApplyResume.ResumeReachesTheSame | internal/rcli/apply_cmd.go:321-381 | stopping after any prefix, planning again and executing reaches the same state, or the same error, as never stopping |
| ApplyResume.CompletedPlanReachesGoal | internal/rcli/apply_cmd.go:321-381 | a completed plan leaves every secret exactly at its goal; undeclared and conflicting ones unchanged |
| ApplyResume.GoalBindings | internal/rcli/apply_cmd.go:225-243 | the goal's triples are the old ones and the declared ones, with prune exactly the declared ones, however often the server held one |
| ApplyResume.ConvergesIff | internal/rcli/apply_cmd.go:207-264 | a re-plan lists only type conflicts and labels that cannot be cleared, and is empty exactly when no declared secret has either |
| ApplyResume.OmittedLabelsNeverConverge | internal/web/api_secrets.go:121-127 | a secret with labels that its manifest entry leaves out is patched in every run and never changes |
| ApplyResume.OnlyRefusedPatternsStop | internal/rcli/apply_cmd.go:357-377 | a plan stops only at a binding pattern the server refuses; a declared binding is always found |
| ApplyNumeric.OthersUntouchedIff | internal/web/api_secrets.go:60-71 | whatever an entry declares, applying it leaves the other secrets as they are exactly if its name is not read as the id of one of them, or is that of a certificate |
| ApplyNumeric.GoalsReachedIff | internal/web/api_secrets.go:60-71 | whatever manifest over some names is applied and whatever one over part of them afterwards, both leave every secret at its goal exactly if no name reads as an id that another secret has or is given by the first |
| ApplyNumeric.OrderDecides | internal/rcli/apply_cmd.go:321-341 | an empty server that gives out the id 9 next: "a", "9" in this order mislead, the other way round they do not |
| ApplyNumeric.SevenMisleads | internal/web/api_secrets.go:60-71 | an entry "7" patches the secret whose id is 7 |
| ApplyNumeric.BorrowedBindingIsNeverStored | internal/rcli/apply_cmd.go:187-200 | with the binding on the secret whose id is 7, an entry "7" that declares it plans nothing, so the secret "7" never gets it |
| ApplyNumeric.PrintedIdIsMisread | internal/web/api_secrets.go:60-71 | the printed id of a secret is misread as a name exactly if the secret is not called that |
| ApplyServer.BindingPresent | internal/rcli/apply_cmd.go:282-289 | finds the triple exactly when it is stored |
| ApplyServer.PlanFromState | internal/rcli/apply_cmd.go:207-246 | the loops compute the plan |
| ApplyServer.Server.Create | internal/vault/service.go:90-133 | an empty type is kv, certificate secrets need a certificate that exists, blank and taken names are refused; otherwise one secret without bindings is added |
| ApplyServer.Server.Update | internal/web/api_secrets.go:109-140 | changes what the reference means, an id before a name; absent or null fields keep their value |
| ApplyServer.Server.BindSecret | internal/vault/service.go:418-448 | a row with the canonical triple is appended, unless a pattern is malformed |
| ApplyServer.Server.UnbindFirst | internal/rcli/apply_cmd.go:365-377 | the first row with the key goes, all others stay in order |
| ApplyServer.Server.Run | internal/rcli/apply_cmd.go:321-381 | the executor leaves the server where the executed prefix takes it and reports the first error |
| CaForest.StepKeepsForest | internal/ca/import.go:136-209 | every write of a row, with completions that find it bare, keeps: a certified CA's parent is certified strictly earlier, a pending one's is certified or an older row |
| CaForest.CertifiedStays | internal/ca/import.go:331-398 | an issuer found at one moment can be linked to at any later one |
| CaForest.TimelyRunsAreAcyclic | internal/ca/import.go:68-76 | in every such run the parent links are acyclic |
| CaForest.DescentEndsIff | internal/ca/lifecycle.go:404-418 | following the links downward from a row, as a retirement does, ends exactly if the row is not its own ancestor |
| CaForest.TimelyRunsCanRetire | internal/ca/lifecycle.go:404-418 | after every such run every authority meets what its retirement needs |
| CaForest.DisabledStaysIff | internal/store/store.go:1117-1137 | a disabled row stays disabled in every future without activation by hand exactly if no completion that found it pending is still running |
| CaForest.DisabledComesBack | internal/store/store.go:1117-1137 | a row requested, found pending, disabled, and active again when the completion ends |
| CaForest.CompletionAcyclicIff | internal/store/store.go:1117-1137 | wherever the links have no loop, completing a row keeps them so exactly if the row is neither its issuer nor an ancestor of it |
| CaForest.RunAcyclicIff | internal/ca/import.go:136-209 | a run from the empty store stays free of loops exactly if no completion links a row to itself or below itself |
| CaForest.LateCompletionMakesCycle | internal/store/store.go:1117-1137 | two requests find a row pending, the first completes, an authority certified by the row is imported, and the second completion links the row below it, so that it is its own ancestor |
| CaAuthorities.Authorities.FindByFingerprint | internal/store/store.go:1174-1183 | finds a stored certificate with the fingerprint exactly when there is one |
| CaAuthorities.Authorities.FindIssuer | internal/ca/import.go:401-440 | the row found issued the certificate; nothing found means no stored certificate did |
| CaAuthorities.Authorities.LinkIssuer | internal/ca/import.go:331-398 | the result issued the certificate, or nothing stored afterwards did; every added anchor comes from the chain, is new, and hangs below an issuer stored before it if there was one |
| CaAuthorities.Authorities.ImportChain | internal/ca/import.go:344-388 | afterwards every CA certificate of the chain is stored, each link to an earlier row |
| CaAuthorities.ValidateExact | internal/pki/import.go:45-62 | a certificate passes exactly if it is a CA's, may sign certificates, and its last instant is not over; which error otherwise |
| CaAuthorities.Authorities.ImportCA | internal/ca/import.go:228-326 | refused exactly for a certificate that is no CA, may not sign, has expired, is already stored, or does not match the key; otherwise stored below its issuer |
| CaAuthorities.Authorities.CreateSubordinateCsr | internal/ca/import.go:55-121 | exactly with a name, subject and key type that pass, a free name and a stored parent, if any: a pending row below any existing row |
| CaAuthorities.Authorities.CreateCA | internal/ca/service.go:83-174 | succeeds exactly when name, subject and key type pass, the name is free, and the parent, if any, has a certificate and a key and does not expire first |
| CaAuthorities.Authorities.CompleteSubordinate | internal/ca/import.go:136-213 | succeeds exactly on a pending row with a valid CA certificate for its key; alone it is always timely, links to an issuer other than itself, and changes no other row |
| CaAuthorities.Authorities.SetCAStatus | internal/ca/service.go:197-206 | only active and disabled are accepted |
| CaAuthorities.Authorities.CAChain | internal/ca/service.go:232-251 | the path to the root, each row once, the whole of it below sixteen: the guard never cuts a cycle |
| CaRevocation.Authorities.Page | internal/store/store.go:1296-1382 | exactly the first 10000 certificates of the CA |
| CaRevocation.Authorities.RevokePage | internal/ca/lifecycle.go:383-400 | the page is revoked: certificates on it that were not revoked carry the reason, revoked and held ones keep theirs, all others stay; the newly revoked are counted |
| CaRevocation.Authorities.RevokeCA | internal/ca/lifecycle.go:371-448 | terminates unless the row is its own ancestor; with cascade disables exactly the subtree, revokes its pages, lists each retired CA with a keyed parent on that parent's CRL, changes nothing else, counts the newly revoked and names the descendants in preorder |
| CaRevocation.Authorities.RetireBelow | internal/ca/lifecycle.go:383-418 | the cascade part of it |
| CaRevocation.Authorities.ListOnParent | internal/ca/lifecycle.go:423-443 | the parent's CRL, or the warning that says why not |
| CaRevocation.RetiredExact | internal/ca/lifecycle.go:371-448 | the tables a retirement leaves, entry by entry: a certificate changes exactly if it is of a retired CA, among its first 10000 and not revoked, and then carries the reason; a CRL entry is written exactly for a retired CA with a keyed parent; every other row stays |
| CaRevocation.WarningTells | internal/ca/lifecycle.go:423-443 | which warning, case by case |
| CaRevocation.PreorderExact | internal/ca/lifecycle.go:403-417 | the preorder holds every row of the subtree once and no other |
| CaRevocation.PreorderDescends | internal/ca/lifecycle.go:403-417 | the row itself comes first, every other one after its parent |
| CaRevocation.CountIsNewlyRevoked | internal/ca/lifecycle.go:388-398 | the reported number is that of the certificates newly revoked |
| CaRevocation.AllRevokedIff | internal/ca/lifecycle.go:384-398 | everything under the subtree ends up revoked exactly when what lies beyond the pages already was |
| CaRevocation.SmallCasFitOnPages | internal/ca/lifecycle.go:384 | with at most 10000 certificates nothing lies beyond the page |
| CaRevocation.RetiredTwice | internal/ca/lifecycle.go:403-417 | the effects of two retirements add up, in either order |
| CaRetirement.LeftoverExact | internal/ca/lifecycle.go:378-400 | with issuing requests interleaved, the certificates left valid are exactly those neither revoked before nor on the page that was read |
| CaRetirement.SlipsAreInFlight | internal/ca/lifecycle.go:378-381 | after the CA is disabled at most as many certificates are stored as requests had passed the check by then |
| CaRevocation.RetiredStaysIff | internal/ca/lifecycle.go:371-382 | each retired CA stays disabled until activated by hand exactly if nobody was completing it |
| CaRetirement.AllRevokedInTheEndIff | internal/ca/lifecycle.go:378-400 | everything is revoked at the end exactly if all beyond the page that was read had been revoked before |
| CaRetirement.OneSlipsThrough | internal/ca/lifecycle.go:378-400 | one such request does leave a valid certificate behind |
| Lifetimes.IssuedExpiryBounds | internal/acme/service.go:668-676 | the issued expiry is within a day after the requested one, or two if that passed before the days were counted, but for the time the request takes, and never after the issuer's |
| Lifetimes.IssueDaysWithinMaximum | internal/acme/service.go:479-504 | at most one day more than the credential's maximum, and that one only inside the minute of slack |
| Lifetimes.RequestedNotAfterExact | internal/acme/service.go:470-504 | a requested expiry is granted exactly if it lies ahead and at most a minute beyond the credential's days, or the authority's where it names none; which refusal otherwise |
| Lifetimes.SignWindowExact | internal/pki/ca.go:262-286 | signing is refused exactly if it would outlive the issuer; 397 days unless a positive number is asked for |
| Lifetimes.RenewDaysExact | internal/ca/lifecycle.go:74-82 | a replacement gets the whole days its predecessor had, and the default where that is less than one |
| Lifetimes.EncodedExpiryCoversIff | internal/pki/ca.go:274-286 | the certificate's own expiry covers the requested instant exactly when that is a whole second |
| Lifetimes.HalfSecondIsLost | internal/pki/ca.go:274-286 | an order for half a second past a whole one gets a certificate that expires at the whole one |
| Lifetimes.SpanIsKept | internal/ca/lifecycle.go:74-82 | encoding, the five-minute backdate and rounding down give back the day count |
| Lifetimes.RenewalKeepsSpan | internal/ca/lifecycle.go:74-82 | along any chain of renewals without a day count every certificate has the first one's span |
| RenewalHistory.Certificates.Renew | internal/ca/lifecycle.go:134-143 | the replacement is a new row linked to the one it replaces |
| RenewalHistory.Certificates.RenewalHistory | internal/ca/lifecycle.go:197-221 | a window of the lineage around the certificate, whole unless a bound cuts it; adjacent entries linked, ids increasing |
| RenewalHistory.LineageChain | internal/ca/lifecycle.go:195-221 | the lineage contains the certificate, every adjacent pair is linked and no id repeats |
| RenewalHistory.SameFromEveryMember | internal/ca/lifecycle.go:195-196 | every later member of a lineage reports that same lineage |
| RenewalHistory.SameFromPredecessorIff | internal/store/store.go:1466-1475 | a predecessor reports it exactly if this was its first replacement |
| Envelope.Seal | internal/pqcrypt/pqcrypt.go:116-180 | the fields are written in this order into one buffer |
| Envelope.Open | internal/pqcrypt/pqcrypt.go:190-260 | reads them back at the same offsets, every slice in bounds or a panic |
| Envelope.LayoutParsesBack | internal/pqcrypt/pqcrypt.go:51-63 | what was written is what is read |
| Envelope.OpenExact | internal/pqcrypt/pqcrypt.go:205-259 | at which offsets Open finds the parts of a whole envelope, what it does with them, and each answer |
| Envelope.OpenRefusals | internal/pqcrypt/pqcrypt.go:190-203 | each refusal of text that is no well-formed envelope |
| Envelope.ParsedBytesAreAll | internal/pqcrypt/pqcrypt.go:205-219 | parsing loses no byte |
| Envelope.OpenOfSeal | internal/pqcrypt/pqcrypt.go:116-260 | opening with the text it was sealed with returns the plaintext, for every plaintext |
| Envelope.MovedNeverOpens | internal/pqcrypt/pqcrypt.go:109-115 | at any other position unwrapping fails |
| Envelope.OpenPanicsIff | internal/pqcrypt/pqcrypt.go:198-218 | Open slices out of bounds exactly on the twelve lengths from the header size on |
| Envelope.CutEnvelopePanics | internal/pqcrypt/pqcrypt.go:198-218 | every sealed envelope cut off within twelve bytes after its header makes Open slice out of bounds |
| Envelope.PanicAt | internal/pqcrypt/pqcrypt.go:198-218 | the algorithm byte and 1212 zero bytes do |
| Envelope.AadInjective | internal/vault/service.go:60-62 | different positions have different texts |
| Envelope.IdealIsPossible | internal/pqcrypt/pqcrypt.go:116-260 | some primitives meet every assumption made of them |
| SecretVersions.StepKeepsInvariant | internal/store/secrets.go:200-242 | every step of any transaction keeps versions exact, one writer per secret, and rows sealed to their own position |
| SecretVersions.VersionsHaveNoGap | internal/store/secrets.go:200-242 | in every run a secret's rows are exactly 1 to its current version |
| SecretVersions.InsertNeverConflicts | internal/store/secrets.go:208-217 | the reserved number never meets the unique constraint |
| SecretVersions.RowLockHolds | internal/store/secrets.go:200-242 | while a transaction is open no other step touches its secret's row or moves its number; ending it frees the row, and a rollback leaves no trace |
| SecretVersions.CommittedVersionOpensForever | internal/vault/service.go:207-297 | in every later state a committed version exists and, until destroyed, opens to the bytes of its Put |
| SecretVersions.MovedPayloadNeverOpens | internal/vault/service.go:60-62 | a payload stored at another position does not open there |
| SecretVault.Vault.Put | internal/vault/service.go:207-236 | refused exactly for a secret that is missing, a certificate or disabled; otherwise the next number, a row sealed to that very number, and nothing else changed; so too when reading it back fails and an error is reported |
| SecretVault.RefusalExact | internal/vault/service.go:207-216 | which refusal, and that there is none exactly for an enabled secret with a payload of its own |
| SecretVault.DisablingRefuses | internal/vault/service.go:207-216 | a disabled secret is refused and no other is; enabling it again gives back all it held |
| SecretVault.Vault.GetVersion | internal/vault/service.go:261-272 | the bytes of that Put, or why not |
| SecretVault.Vault.GetLatest | internal/vault/service.go:240-258 | the value of the newest version not destroyed, if there is one |
| SecretVault.Vault.DestroyVersion | internal/vault/service.go:311-325 | the payload is scrubbed, the row and its number stay |
| Rebind.RebindQuery | internal/store/pgrebind.go:137-173 | the loop computes the rewritten query |
| Rebind.QuotesExact | internal/store/pgrebind.go:137-173 | a quote character opens quoted text, and only the same one closes it |
| Rebind.QuotedUntilClosed | internal/store/pgrebind.go:137-173 | quoted text reaches from its opening quote to the next one of the same kind, whatever is in between |
| Rebind.ReboundIsImages | internal/store/pgrebind.go:137-173 | unquoted placeholders are numbered from 1 in order, every other byte and all quoted text is unchanged |
| Rebind.RebindIsIdempotent | internal/store/pgrebind.go:137-173 | rewriting twice is rewriting once |
| Rebind.RestoredIff | internal/store/pgrebind.go:132-136 | turning the numbers back restores exactly the queries in which no unquoted "?" or "$" is directly followed by a digit |
| Sans.Strings | internal/pki/subject.go:141-156 | each kind in order, tagged |
| Sans.SplitList | internal/pki/subject.go:205-217 | the non-blank parts between separators, trimmed, in order |
| Sans.ParseSans | internal/pki/subject.go:161-202 | the entries by tag or by their look, or the first error |
| Sans.ReadByTag | internal/pki/subject.go:161-202 | how an entry with a tag, in any case of letters, is read |
| Sans.ReadByLook | internal/pki/subject.go:161-202 | how an entry without a tag is read: address, e-mail, URI or DNS name, in this order |
| Sans.ItemsAreClean | internal/pki/subject.go:205-217 | no part holds a separator or a space at its ends |
| Sans.RoundTripIff | internal/pki/subject.go:139-217 | reading a printed set gives it back, in the same order, exactly when no DNS value, e-mail value or printed URI holds a separator or a space at its ends |
| Sans.TrailingSpaceIsLost | internal/pki/subject.go:205-217 | a value without separators that is changed all the same |
| Sans.UriWithCommaIsCut | internal/ca/lifecycle.go:94-128 | a URI printed with a comma is not carried over by renewal |

## Left out

- HTTP routing, CLI commands, prompts, tables, metrics, audit records, event delivery over HTTP and its signature.
- JOSE, X.509, ASN.1 and PEM encoding, bcrypt, and the insides of ML-KEM, X25519, HKDF, AES-GCM and base64: they appear as functions with stated assumptions.
- The SQL engine beyond atomic statements, row locks, the re-check under READ COMMITTED, and commit or rollback. `FOR UPDATE SKIP LOCKED` is the step that skips a locked row.
- LDAP, OIDC, Kubernetes token verification and the CSI driver.
- Deleting authorities, secrets, credentials and webhooks, and reuse of their ids.
- Lifting a hold, CRL numbering and the login throttle.
- Lower-casing outside ASCII, and path.Match itself, which is a parameter.
- Floating-point rounding in Duration.Hours and durations beyond 292 years: day counts are exact quotients.
- ApplyResume.ResumeReachesTheSame: names that the server would trim, fields with a NUL, and names that read as another secret's id (certificates apart) are excluded by its hypotheses; what the last do is ApplyNumeric; binding expiries are not compared.
- ApplyServer.Server.UnbindFirst: rows have no ids; deleting by id is deleting that row.
- CaAuthorities.Authorities.CompleteSubordinate: runs without interruption; what a concurrent completion can do is CaForest.RunAcyclicIff.
- CaAuthorities.Authorities.CreateCA: that a generated key is new to the store is a hypothesis; what the rules for names, subjects and key types say, and whether the name is taken, are parameters; no store error otherwise.
- CaAuthorities.Authorities.FindIssuer: where several stored certificates match a key identifier or a name, the database may pick any; the model picks the oldest.
- CaRevocation.Authorities.RevokeCA: runs alone, the interleaving with issuing being CaRetirement for one CA; assumes no store error, so the warnings about failed statements do not arise; children are visited by id, where the source leaves their order to the database.
- CaRevocation.AllRevokedIff: says revoked, not permanently revoked, since a hold counts as revoked.
- AcmeServer.Server.Finalize: JWS authentication is reduced to the account that owns the order, and the CSR to its names; of the store's errors those of issuing, of the link and of the last read are modelled; a failing claim or mark is the machine's Stop before or after the statement.
- SecretVault.Vault.Put: of the store's errors only that of the final read is modelled; a failing statement rolls back, which is SecretVersions.
- AcmeOrders.DisabledCredentialStops: downloading a certificate does not check the credential, so it says nothing about downloads.
- AcmeRegistration.Registrar.NewAccount: JWS and the binding's MAC are not modelled; `usable` is whether the credential is enabled and unexpired.
- AcmeNonces.NonceTable.New: the random value is a parameter; that values do not repeat is a hypothesis where it is needed.
- Envelope.Open: overwriting keys after use is not modelled.
- Sans.RoundTripIff: that the library reads back the addresses and URIs it prints, addresses cleanly and no URI from a shorter stretch of its text, is a hypothesis.
