# Verified model of irmago

A Dafny model of the parts of [irmago](https://github.com/privacybydesign/irmago) whose correctness
depends on several functions, two sides of a protocol, or a whole run:

- **Disclosure, client to verifier** (`Requests`, `CredentialStore`, `Products`, `Candidates`,
  `SharedCandidates`, `Disclose`, `Verify`, `Chaining`, `Issued`). The client lists options for a conjunction of disjunctions of
  conjunctions, groups the user's choice per credential and sends positional indices; the verifier
  walks those indices along the same request. `Chaining` joins the two: one fully present listed option
  per disjunction is complete for the verifier, at indices in range and without extra attributes, in one
  session and in chains of any length. The link between both sides is that the order in which the client
  expands a conjunction is the order of the request exactly when the attributes of each credential type
  are adjacent, which is what request validation checks.
- **Server sessions under concurrency** (`Session`, `SessionHandlers`, `SessionStore`, `SessionReplay`). The handlers are
  proved against functions of the session; the store is a state machine over any number of transactions
  in flight, each working on a copy and stored only if nothing else was stored meanwhile. Over every
  interleaving: a serial history of allowed status changes, one move to DONE, one response that carries
  signatures, and nothing sensitive before pairing, replays from the response cache included.
- **Revocation** (`RevocationLog`, `RevocationStorage`, `RevocationRanges`). The append-only hash-linked
  log of each key under updates in any order, revocations and re-signing; the ranges a client fetches and
  what a server answers.
- **Dependencies of credential types** (`Dependencies`, `WizardTree`, `WizardOrder`). Validation of the
  and-or graph against its least fixed point, and the order in which an issue wizard lists credentials.
- **Metadata and attribute codec, issuance requests** (`Codec`, `Identifiers`, `Scheme`, `Issuance`).
- **Keyshare core** (`Keyshare`): single use of commitment secrets and challenges.

Code that assigns fields or loops is modelled by classes and loops, each proved against a function of
its inputs, and the theorems are about those functions. `Outcomes.Outcome` is a Go result: a value, an
error or a panic. Integers are unbounded; where the width matters (16-bit metadata fields, 64-bit event
indices) it is written out. Clocks, random numbers, remote parties, cryptography and the results of I/O
are parameters, so every theorem holds for all of them.

## Assumptions about libraries

- Proofs verify or do not (`cryptoOk`); a proof built from a credential discloses the integers asked for
  and no others, and a group for a whole credential names its metadata.
- Event hashing is injective (`RevocationLog.Hash` is the term hashed); `Update.Verify` accepts exactly
  an authentic accumulator with no events or with linked events that end at its index and hash;
  `Accumulator.Remove` gives the next index and an event linked to its parent.
- Copying a session through JSON is the identity on the modelled fields, and comparing the SHA-256 of
  two JSON encodings or two messages compares them.
- SHA-256 is injective, and never gives the empty text.
- A full slice grows to some larger capacity; the inputs below use that it doubles, as Go does for up to
  256 pointers.
- Drawing a commitment secret or a challenge never repeats an earlier one; drawing a commit id may.

## Where the code differs from what it says or promises

- The response cache is consulted before the client's authorization is compared, so a replay goes to
  whoever sends the same body to the same endpoint within ten seconds: `SessionReplay.ReplayToStranger` is a run
  in which another client gets the session request after pairing, `Session.StrangerGetsReplays` says
  exactly when that happens, and `SessionStore.SensitiveToOneClient` that nothing else goes astray.
- `checkCache` documents that the request body must not be empty; the code looks at the cached response
  instead. In `SessionReplay.ReplayToStranger` the body is empty.
- `multiply` appends to slices that share their arrays, so that from the fourth credential type on, at every
  place where slices have room, only the last candidate is listed, as often as there are candidates
  (`Products.ListingExact` says exactly when, `Products.SharedArraysInput` is an input). The others are never
  offered, and a request can be reported satisfiable although no listed option is made of held credentials
  (`SharedCandidates.SatisfiableWithoutOption`). What is listed can still be disclosed: the results of
  `Chaining` hold for the listing as it is.
- The server supports protocol version 2.4 for requests that convert to the legacy format, but finds out whether a
  request does only after it has chosen the version, so 2.4 is never chosen (`SessionStore.EveryRunGrounded`).
- `AttributeList.Hash` hashes the bytes of all integers in a row, without lengths, and 0, an absent attribute,
  has none; so different credentials can have the same hash, and `addCredential` then removes one for the
  other (`SharedCandidates.DifferentDisplaced`, `CredentialStore.DisplacedIff`).
- `AddUpdate` says that into an empty log only an update with the full event chain can go; the code only
  asks for a non-empty list, so a stored log may start anywhere (`RevocationLog.Extend`).
- `binaryPartition` says it rounds up; a multiple of 16 is still raised to the next one. Its loop never
  ends for `2^64-512 <= to < 2^64-16` (`RevocationRanges.NeverEnds`) and gives nothing from `2^64-16` on.
- `FetchUpdateFrom` leaves a gap when the one event right before the latest update is asked for
  (`RevocationRanges.FetchRanges` has the exact condition): then nothing is fetched and that event is missing.
- `shortToByte` lets 65536 through, which reads back as 0 (`Codec.ShortReadBack`): a credential with a
  validity of 65536 weeks expires at its signing date (`Codec.MetadataAttribute.SetExpiryDate`).
- `FloorToEpochBoundary` promises a boundary not after the time; before 1970 it rounds up (`Codec.FloorBounds`).
- `extractAttribute` checks the credential index against the number of proofs, but lets the index one past the end and
  negative ones through, which panic (`Verify.ReadErrIff`).
- A demand for a value, or for a value that is not null, on a whole credential is judged differently by
  client and verifier (`Chaining.SameJudgementIff` says exactly when they agree).
- The scheme parser accepts repeated attribute names and a second revocation attribute; the latter makes
  reading that attribute panic (`Issuance.ReadsBack`).
- `remove` leaves the lookup stale when storage fails (`CredentialStore.Client.Remove`), and so does
  `addCredential` exactly when that happens during a removal (`CredentialStore.Client.AddCredential`).
- `validateDependencies` does not exclude cycles along the path the wizard chooses
  (`Dependencies.ValidCycle`), on which the wizard recurses without end (`WizardTree.ChoosesCycle`);
  `WizardTree.EndsIffRanked` says exactly when it ends, and the wizard members ask for that rank.
- Wizard items without a credential survive in place only if they come last (`WizardOrder.TrailingItems`).
- `validateDependencies` looks no further in a conjunction once an item is circular, so a type of another scheme
  or an unknown one behind it goes unreported (`Dependencies.ErrorIff` says exactly what is reported).
- What was disclosed without a value is asked for again in the next session without demanding that it has none, so
  it may have one there (`Chaining.ImplicitIffRepeated`); values that were disclosed have to stay the same.
- A POST retried after its next session failed to start appends the implicit disclosure a second time,
  unless it is answered from the cache (`Session.RetriedPostAppendsTwice`, `SessionStore.AppendedOnceIff`);
  the chain theorem is about sessions in which it was appended once.

## Model

| member | source | states |
|---|---|---|
| `Codec.FromToBytes` | attributes.go:261-267 | Converting an integer to bytes and back gives the integer. |
| `Codec.ToFromBytes` | attributes.go:180-190 | Converting bytes to an integer and back gives the bytes minus all leading zeros. |
| `Codec.FieldAfterWrite` | attributes.go:377-404 | After writing a field, that field reads as the value right-aligned and every disjoint field is unchanged, although the integer drops leading zero bytes. |
| `Codec.MetadataIsItsFields` | attributes.go:14-30 | Metadata is its fields in a row: version, signing date, validity, key counter, hash of the type. |
| `Codec.ShortReadBack` | attributes.go:406-413 | Every short the guard admits reads back, except 65536, which reads back as 0. |
| `Codec.FloorBounds` | attributes.go:370-375 | The epoch floor is the last week boundary not after the time if and only if the time is from 1970 on or a boundary. |
| `Codec.DecodeEncode` | attributes.go:180-190 | Decoding an encoded value gives it minus leading zero bytes; 0 decodes to nothing from version 3 on. |
| `Codec.MetadataAttribute.SetField` | attributes.go:381-404 | The byte loop writes exactly that field and keeps all others. |
| `Codec.MetadataAttribute.SetSigningDate` | attributes.go:288-297 | Panics exactly out of range; otherwise the signing date is the week floor of the issue time exactly below week 65536, and the epoch at week 65536. |
| `Codec.MetadataAttribute.SetKeyCounter` | attributes.go:300-306 | Panics exactly above 65536; the counter reads back, as 0 at 65536. |
| `Codec.MetadataAttribute.SetExpiryDate` | attributes.go:323-338 | Refused exactly before the signing date; expiry <= requested < expiry + one week if and only if below 65536 weeks, at which it is the signing date; signing date unchanged. |
| `Identifiers.SplitJoin` | identifiers.go:98-134 | An attribute identifier splits into its credential type and name again. |
| `Scheme.IndexOfName` | descriptions.go:671-681 | The first attribute with a name, or none if there is none. |
| `Requests.ValidateCon` | requests.go:373-396 | Accepts exactly conjunctions of well-formed identifiers in which attributes of one credential type are adjacent. |
| `Requests.ComputeCredentialTypes` | requests.go:360-371 | Lists the credential types in the order and with the repeats the client relies on. |
| `Requests.AdjacentTypesDistinct` | requests.go:360-371 | With adjacency, no credential type is listed twice. |
| `Requests.ClientOrderIsRequestOrder` | requests.go:373-396 | The client's order per credential type equals the order of the request if and only if the conjunction is adjacent. |
| `CredentialStore.Client.Remove` | irmaclient/client.go:391-430 | Drops one instance and renumbers the lookup; the invariant holds afterwards exactly if storage succeeded. |
| `CredentialStore.Client.AddCredential` | irmaclient/client.go:320-379 | Exactly the instances with the same hash, equal instances, or instances of the same singleton type give way; other types are untouched; the store stays exact if and only if storage does not fail during a removal. |
| `CredentialStore.Client.DropEqualInstances` | irmaclient/client.go:355-361 | The backward loop keeps exactly the instances that differ from the new one, or stops inexact when storage fails. |
| `CredentialStore.Client.FindByHash` | irmaclient/client.go:326-337 | Finds the position of a held hash, or -1 if it is not held. |
| `CredentialStore.RemoveKeepsLookup` | irmaclient/client.go:391-430 | Removing an instance and renumbering keeps lookup and lists in exact agreement. |
| `CredentialStore.AppendKeepsInv` | irmaclient/client.go:364-371 | Appending a credential that differs from all held ones keeps the whole store invariant. |
| `CredentialStore.StaleIndex` | irmaclient/client.go:397-421 | After a failed removal from storage the lookup is not exact. |
| `CredentialStore.AttributesByHashExact` | irmaclient/client.go:515-521 | A hash finds an instance if and only if it is held, and then that one. |
| `CredentialStore.SameHashSameMetadata` | attributes.go:99-115 | Equal hashes have equal metadata and so the same type, given only that SHA-256 is injective. |
| `CredentialStore.DisplacedIff` | irmaclient/client.go:326-361 | A held instance gives way exactly if the bytes of its integers in a row are the same, or its attributes are. |
| `CredentialStore.SameBytesSameInts` | attributes.go:99-115 | The same bytes in a row are the same integers if and only if all lengths agree. |
| `SharedCandidates.DifferentDisplaced` | attributes.go:99-115 | Two different credentials of one type with the same hash, of which adding one displaces the other. |
| `Products.ComputeMultiply` | irmaclient/client.go:703-711 | On slices that share their arrays: where there is room for one more, each candidate is written over the one before and all show the last; otherwise every combination is copied. |
| `Products.ComputeCartesianProduct` | irmaclient/client.go:749-758 | The loop on slices returns the product of the lists as they are left after overwriting. |
| `Products.ProductExact` | irmaclient/client.go:749-758 | The cartesian product has every combination and nothing else, its size is the product of the sizes, and no combination occurs twice if no list has repeats. |
| `Products.ListingMembers` | irmaclient/client.go:703-758 | Whatever is listed is a choice of candidates, at a place with room of the last one. |
| `Products.ListingExact` | irmaclient/client.go:703-758 | For lists without repeats: the listing is the product, has every combination, and has none twice, each if and only if the product is empty or every place with room has at most one candidate; its size is always right. |
| `Products.SpareIff` | irmaclient/client.go:703-711 | With doubling, the places with room are those other than 0, 1, 2, 4, 8 and so on. |
| `Products.SharedArraysInput` | irmaclient/client.go:749-755 | After three single candidates a list of two is listed as its second candidate twice. |
| `Candidates.SatisfiesCon` | irmaclient/client.go:673-701 | Whether an instance meets all requests of its type in a conjunction, and whether it is usable. |
| `Candidates.ComputeCredCandidates` | irmaclient/client.go:588-631 | Per credential type the held matching instances and, where one can be obtained, the missing one; satisfiable iff each type has a usable instance. |
| `Candidates.OfferedIff` | irmaclient/client.go:588-671 | Offered for a credential type are exactly the held credentials that have a text for every request of that type, and the suggestion to obtain one exactly if the type is not deprecated and either can be obtained at an address, is no singleton and no value is demanded, or nothing held fits and none is being issued in this session. |
| `Candidates.ComputeExpand` | irmaclient/client.go:713-747 | Each combination becomes one entry with an attribute per request of each credential type. |
| `Candidates.ExpandWalksClientOrder` | irmaclient/client.go:713-747 | The attributes of an entry follow the client's order of the conjunction, each from the credential of its type. |
| `Candidates.ComputeDisConOptions` | irmaclient/client.go:760-805 | The options of a disjunction are those of its conjunctions, and it is satisfiable iff one of them is. |
| `Candidates.ComputeCandidates` | irmaclient/client.go:809-829 | Lists the options of every disjunction; satisfiable iff every disjunction has a conjunction whose types all have a usable instance; if every disjunction lists an option made only of held and usable credentials it is satisfiable, and conversely if no list of candidates is overwritten. |
| `Candidates.SatisfiableIffUsableOption` | irmaclient/client.go:760-805 | A disjunction lists such an option if and only if some conjunction still shows a usable instance of each type; then it is satisfiable, and if no list of candidates is overwritten only then. |
| `Candidates.ListedOptionMeetsCon` | irmaclient/client.go:713-747 | A fully present option meets an adjacent conjunction position by position, in the order of the request, and shows the demanded values. |
| `Candidates.TypeCandidatesDistinct` | irmaclient/client.go:588-631 | With an exact store no instance is offered twice for a credential type. |
| `Candidates.ConOptionsExact` | irmaclient/client.go:749-805 | The options of a conjunction are expansions of ways to take one candidate per credential type, as many as there are ways; all of them, and each exactly once, if and only if no list of candidates is overwritten. |
| `SharedCandidates.SatisfiableWithoutOption` | irmaclient/client.go:588-631 | A store and a request for four credentials, each held and usable, that is reported satisfiable although no listed option is made only of held credentials. |
| `Candidates.ListedFlags` | irmaclient/client.go:713-747 | The flags of a listed attribute say exactly whether its credential has expired, is revoked, or cannot prove that it is not although updates to prove it against were sent; a suggestion has no flags. |
| `Disclose.GroupCredentials` | irmaclient/client.go:839-883 | Succeeds exactly for known attributes; every chosen attribute gets the position at which its credential's group discloses it, and nothing else is disclosed. |
| `Disclose.KnownIff` | irmaclient/client.go:839-883 | Known are exactly the known types and what is written as a known type, a dot and the name of one of its attributes. |
| `Disclose.BuildProofs` | irmaclient/client.go:886-930 | Succeeds exactly if every group is held and provable, with one proof per group. |
| `Disclose.ChosenReadsAsItself` | verify.go:106-125 | The index of a chosen attribute is in range and the verifier reads that attribute with its text there. |
| `Verify.ComputeConSatisfy` | requests.go:426-447 | The loop of Satisfy for a conjunction, errors and panics included. |
| `Verify.ConSatisfiedIff` | requests.go:418-447 | A conjunction is satisfied exactly if at each position the attribute asked for is read, with a value if it must not be null and with the demanded value if there is one; and with exactly those attributes. |
| `Verify.ConFailsAt` | requests.go:426-447 | Otherwise its first unmet position decides whether it is refused, an error or a panic. |
| `Verify.ConResults` | requests.go:418-447 | It is refused exactly if there are too few indices, or the first unmet position can be read. |
| `Verify.ReadIffShown` | verify.go:320-350 | An attribute is read at an index exactly if that place of that proof shows it: identifier, text of the disclosed integer, status, issuance time, and whether nonrevocation was proved. |
| `Verify.ReadErrIff` | verify.go:106-125 | Of what cannot be read, exactly an index more than one past the end, a proof of another kind and an unknown type are errors; all else panics, among it the index one past the end. |
| `Verify.ComputeDisConSatisfy` | requests.go:464-475 | The loop over the conjunctions of a disjunction. |
| `Verify.FirstDecides` | requests.go:464-475 | The first conjunction that is not refused decides a disjunction, whether it is satisfied or fails. |
| `Verify.DisConSatisfiedIff` | requests.go:464-475 | A disjunction is satisfied exactly if a conjunction is met position by position and those before it are refused. |
| `Verify.ComputeConDisConSatisfy` | requests.go:498-519 | The loop over all disjunctions. |
| `Verify.MatchedIff` | requests.go:498-519 | The result lists what each disjunction was satisfied with, and is complete exactly if each of them was; with too few index lists it is empty and not complete. |
| `Verify.RequestFailsAt` | requests.go:498-519 | The first disjunction that cannot be read makes the whole request fail in the same way. |
| `Verify.ExtractPublicKeys` | verify.go:54-75 | Succeeds exactly if every proof is of a known type with a known key. |
| `Verify.VerifyProofs` | verify.go:128-252 | True exactly if the proofs verify, keys match, singletons occur once and requested nonrevocation proofs are recent enough; a time is reported exactly for the proofs whose guarantee ends longer ago than tolerated. |
| `Verify.ReportedIffTooOld` | verify.go:219-248 | Nonrevocation is guaranteed until the time of the accumulator or, at the index sent, the server's last update; that time is reported exactly if it is longer ago than the request, or else the server, tolerates. |
| `Verify.Expired` | verify.go:77-104 | False exactly if no credential is expired; true exactly if one is, by its own date or its key, and none before it makes the check fail. |
| `Verify.ExpiredOrNot` | verify.go:77-104 | With a known key a proof is either expired or unexpired. |
| `Verify.ExtraIndices` | verify.go:254-292 | The disclosed attributes that no index names. |
| `Verify.DisclosedAttributes` | verify.go:294-318 | The matched list, and the attributes at exactly the disclosed positions that no index names, each once, marked as extra. |
| `Verify.NoExtrasIff` | verify.go:294-318 | No extra attribute is reported if and only if everything disclosed is named. |
| `Verify.VerifyAgainstRequest` | verify.go:352-394 | VALID, MISSING_ATTRIBUTES and EXPIRED each if and only if the conditions for that verdict hold, INVALID in all other cases without a panic; with the matched list, the extras and the reported times. |
| `Verify.ValidIff` | verify.go:352-394 | VALID if and only if: the cryptography holds; every disjunction is met, position by position, at the indices given for it; everything else disclosed can be read; every credential is unexpired unless skipped, signed before its known key expired, and comes with a signed nonrevocation proof no older than the update sent if one was asked for; no singleton type occurs twice. |
| `Chaining.ConAnswered` | requests.go:426-447 | On an honest answer Satisfy never fails and is satisfied exactly by the conjunctions the chosen part matches. |
| `Chaining.RequestAnswered` | requests.go:498-519 | A choice that matches the request position by position is complete, in range and without extras. |
| `Chaining.NothingExtra` | verify.go:254-292 | An honest answer discloses only metadata and chosen attributes. |
| `Chaining.SameJudgementIff` | requests.go:418-424 | For every credential and every request, client and verifier judge the same of an attribute; of a whole credential if and only if nothing more is demanded than that it be not null and the client finds an attribute named like the credential, or the client finds the demanded value there exactly if that is "present". |
| `Chaining.OtherWholeDemandNeverMet` | requests.go:418-424 | A value other than "present" demanded of a whole credential is never met at the verifier. |
| `Chaining.SelfNamedAttributeMismatch` | irmaclient/client.go:673-701 | A concrete credential, with version 3 metadata, of a type with an attribute named like itself, for whose value the client offers what the verifier refuses. |
| `Chaining.ListedOptionMatches` | irmaclient/client.go:760-805 | A fully present listed option of a validated disjunction matches it. |
| `Chaining.ChosenOptionsSatisfyRequest` | irmaclient/client.go:809-883 | For every validated request and every store, one fully present listed option per disjunction, grouped and proved, is complete for the verifier, in range, without extras. |
| `Chaining.ChosenProvable` | irmaclient/client.go:886-930 | A fully present listed option can be grouped, and be proved if and only if none of its attributes is flagged. |
| `Chaining.AnswerRequest` | irmaclient/client.go:839-948 | From chosen options to the disclosure: succeeds exactly if no chosen credential is flagged, and what is sent is complete for the verifier, without extras. |
| `Chaining.SingletonsProvedOnce` | verify.go:168-195 | A client with an exact store never proves a singleton type twice. |
| `Chaining.HonestAnswerIsValid` | verify.go:352-394 | An honest answer from unexpired, unrevoked credentials is VALID, given sound cryptography. |
| `Chaining.ComputeNextImplicit` | server/irmaserver/handle.go:288-302 | The loop that turns disclosed attributes into the implicit request of the next session. |
| `Chaining.ImplicitIffRepeated` | server/irmaserver/handle.go:288-302 | Whatever any client sends: an implicit request is satisfied exactly by attributes read at its indices that are the same as before, with the same value wherever there was one. |
| `Chaining.RoundAccepted` | server/irmaserver/handle.go:140-144 | A session answered with listed options and everything disclosed before is VALID without extras, and the next implicit request is aligned with all choices so far. |
| `Chaining.ChainOfAnyLength` | irmaclient/session.go:467-470 | In a chain of any length a client that answers with options it lists, from presentable credentials it still holds, gets VALID in every session, without extra attributes. |
| `Chaining.ChainFromStart` | irmaclient/session.go:592-594 | In particular from an ordinary first session. |
| `Chaining.ResultLists` | verify.go:294-318 | The result of a VALID session lists for every disjunction what satisfied it, and at the end whatever else was disclosed. |
| `Chaining.EveryLaterRepeats` | server/irmaserver/handle.go:305-320 | In a chain of any length, with any clients, everything a session found disclosed, extra attributes included, is disclosed again with the same values in every later session that is VALID. |
| `Session.ChooseVersion` | server/irmaserver/helpers.go:99-127 | The highest version both sides accept, and none only if there is no such version. |
| `Session.MinVersionIff` | server/irmaserver/helpers.go:99-115 | The lowest acceptable version is the least that meets all requirements: security, next session, revocation, compatibility. |
| `Session.TimesOutIff` | server/irmaserver/helpers.go:355-363 | An unfinished session becomes TIMEOUT exactly when it has been idle for its lifetime, which before a client connects is the client timeout if set; nothing else changes. |
| `Session.TimeoutIsStep` | server/irmaserver/sessions.go:157-159 | The timeout check is an allowed status change and keeps a finished session. |
| `Session.GetIsStep` | server/irmaserver/handle.go:37-102 | Starting a session is an allowed change and sends the request only if no pairing is needed. |
| `Session.GetStartsIff` | server/irmaserver/handle.go:37-102 | A GET starts a new session exactly if a version can be chosen and all preparations succeed; the session then belongs to that client, waits for pairing exactly if a method is set and the version is 2.8, and otherwise sends the request; if not started it is cancelled. |
| `Session.CommitmentsIsStep` | server/irmaserver/handle.go:328-352 | Signatures are computed only with the move from CONNECTED to DONE after valid proofs. |
| `Session.ProofsIsStep` | server/irmaserver/handle.go:354-392 | Accepting proofs moves from CONNECTED to DONE, or keeps or cancels the session. |
| `Session.PostExact` | server/irmaserver/handle.go:108-156 | A POST makes a connected session DONE exactly if the proofs were verified and all that follows succeeds, with the verdict, the signatures and the next session as they turned out; it cancels it exactly if preparing or verifying fails or an issuance is not valid; otherwise an error is sent. |
| `Session.DoneMeans` | server/irmaserver/handle.go:328-392 | Whatever makes a session DONE is a POST of its client whose verdict the session keeps and the reply carries; for an issuance the verdict is VALID and the signatures are those issued. |
| `Session.RequestSentIff` | server/irmaserver/handle.go:435-447 | The connected client gets the request whenever it asks under version 2.8; if it cannot be copied the session is cancelled. |
| `Session.RefusedUnchanged` | server/irmaserver/helpers.go:615-638 | A call to a session that is not connected, or from another client, changes nothing, and which error it gets. |
| `Session.FrontendExact` | server/irmaserver/helpers.go:65-90 | What frontend and requestor change: options before a client connects, the pairing of a waiting client, cancelling what is unfinished; the frontend only with its own authorization. |
| `Session.HandleIsStep` | server/irmaserver/helpers.go:561-613 | Every call keeps the session coherent, follows the allowed moves, freezes finished results and started options, and connects a session that needs pairing only by completing it; only commitments posted to a session that issues nothing panic. |
| `Session.CachedCall` | server/irmaserver/helpers.go:525-559 | A cached endpoint either replays the cached response unchanged, or computes a fresh one and caches it with the status left behind. |
| `Session.ReplayedIffRetry` | server/irmaserver/helpers.go:131-147 | A cached response is replayed exactly for the same kind of call with the same message within ten seconds, while the status is unchanged. |
| `Session.OtherCall` | server/irmaserver/helpers.go:512-523 | The other calls leave the cache alone and send nothing sensitive. |
| `Session.StrangerGetsReplays` | server/irmaserver/api.go:158-167 | On a started session a call that is not from its client gets a sensitive reply if and only if it hits the cache while a sensitive reply is cached. |
| `SessionReplay.ReplayToStranger` | server/irmaserver/helpers.go:525-559 | A run of the store in which, with pairing needed and done, another client asks for the session request with the same empty body and gets it. |
| `Session.CallAppends` | server/irmaserver/handle.go:108-156 | Only a POST that gets as far as verification and is not a replay appends the implicit disclosure, and only once; then the session is done, cancelled, or connected with the next session not started. |
| `Session.RetriedPostAppendsTwice` | server/irmaserver/handle.go:354-392 | After a POST whose next session failed to start, a retry of its client appends a second time if and only if the body differs or more than ten seconds have passed; otherwise it changes nothing. |
| `SessionHandlers.ActiveSession.CheckTimeout` | server/irmaserver/helpers.go:355-363 | An unfinished session past its time becomes TIMEOUT; an allowed change from every coherent session. |
| `SessionHandlers.ActiveSession.HandleDelete` | server/irmaserver/handle.go:27-35 | Cancels an unfinished session and leaves a finished one alone; an allowed change from every coherent session. |
| `SessionHandlers.ActiveSession.UpdateFrontendOptions` | server/irmaserver/helpers.go:66-81 | Only before the client connects, only known methods; otherwise unchanged; an allowed change from every coherent session. |
| `SessionHandlers.ActiveSession.PairingCompleted` | server/irmaserver/helpers.go:84-90 | Connects exactly a session that is pairing; an allowed change from every coherent session. |
| `SessionHandlers.ActiveSession.Serve` | server/irmaserver/helpers.go:525-559 | The cache around the pairing check around the handler: from a coherent session either the cached response and no change, or a fresh response to the session's client, an allowed change and a new cache entry. |
| `SessionHandlers.ActiveSession.Handle` | server/irmaserver/api.go:145-168 | Every call, field by field, has the specified effect, keeps a coherent session coherent, and panics only on commitments posted to a session that issues nothing. |
| `SessionHandlers.ActiveSession.Transact` | server/irmaserver/sessions.go:146-189 | Timeout check, handler and the decision to store are together what the store takes a transaction to be, and an allowed change. |
| `SessionStore.StepKeepsInv` | server/irmaserver/sessions.go:146-189 | Beginning or finishing any transaction keeps: serial history, valid copies, every response accounted for, no change stored by two transactions. |
| `SessionStore.CommittedStep` | server/irmaserver/sessions.go:146-189 | Every stored session is coherent and every stored change is an allowed one, timeouts included. |
| `SessionStore.FixedForever` | server/irmaserver/helpers.go:42-97 | Once finished, status and result never change; once started, options, version and client never change. |
| `SessionStore.DoneOnce` | server/irmaserver/handle.go:328-352 | At most one stored change makes the session DONE. |
| `SessionStore.ConnectedMeansPaired` | server/irmaserver/helpers.go:84-90 | A session that needs pairing is connected or done only after a stored pairing-completed call. |
| `SessionStore.CacheOrigin` | server/irmaserver/helpers.go:525-559 | Every cached response was computed for an earlier stored change, by the call it is cached for. |
| `SessionStore.ReplayOrigin` | server/irmaserver/helpers.go:525-559 | Every replayed response was computed for an earlier stored call of the same kind with the same message. |
| `SessionStore.UnstoredIsUnchanged` | server/irmaserver/sessions.go:146-189 | A transaction that does not ask to be stored has changed nothing but the timeout. |
| `SessionStore.SignaturesReleased` | server/irmaserver/helpers.go:561-613 | Signatures leave only as the response of the change that makes the session DONE with valid proofs, or as its replay. |
| `SessionStore.SensitiveAfterPairing` | server/irmaserver/helpers.go:615-638 | With pairing, the request is sent and proofs accepted only after a stored pairing-completed call, replays included. |
| `SessionStore.SensitiveToOneClient` | server/irmaserver/helpers.go:615-638 | Every sensitive response went to the client that started the session, or was replayed from the cache of the session it was read from. |
| `SessionStore.AppendedCount` | server/irmaserver/handle.go:134-156 | Over every run the implicit disclosure was appended as often as stored POSTs got as far as verification: once per failure to start the next session, and once more if the session is DONE. |
| `SessionStore.AppendedOnceIff` | server/irmaserver/handle.go:305-326 | In every interleaving a DONE session appended it exactly once if and only if no stored POST failed to start the next session. |
| `SessionStore.EveryRunIsSerial` | server/irmaserver/sessions.go:146-189 | In every interleaving from a new session: serial history, allowed changes, one move to DONE, at most one stored transaction per copied session. |
| `SessionStore.EveryRunSignsOnce` | server/irmaserver/sessions.go:146-189 | In every interleaving all released signatures are one response, and at most one transaction releases it other than as a replay. |
| `SessionStore.EveryRunKeepsVerdict` | server/irmaserver/handle.go:134-156 | In every interleaving a DONE session keeps the verdict on the proofs of the one stored POST of its client that made it DONE, which was answered with that verdict. |
| `SessionStore.EveryRunPairsFirst` | server/irmaserver/helpers.go:615-638 | In every interleaving a session that needs pairing releases nothing sensitive and is not DONE before pairing was completed. |
| `SessionStore.EveryRunPairsAsAsked` | server/irmaserver/helpers.go:65-81 | In every interleaving from a new session a PIN is used only if a stored call asked for it, with the code that call set. |
| `SessionStore.EveryRunGrounded` | server/irmaserver/handle.go:48-70 | In every interleaving from a new session no version below 2.5 is negotiated, only a cancelled session has failed, and a next session is announced only by a session that is DONE with valid proofs. |
| `RevocationLog.CollectNewEvents` | revocation.go:237-250 | The loop keeps the events from the first missing index on, or refuses one that does not link. |
| `RevocationLog.FreshIsSuffix` | revocation.go:237-250 | In a linked list these are the suffix at that index, by position. |
| `RevocationLog.AddedIffAcceptable` | revocation.go:215-272 | An update is taken up exactly if it verifies and starts the log, is older, re-signs the head, or continues it without a gap and linked to it. |
| `RevocationLog.AddedKeepsLog` | revocation.go:215-272 | Any accepted update keeps the log linked up to its accumulator and the old events a prefix; an older one changes nothing, any other replaces the accumulator and makes its index the head. |
| `RevocationLog.HashDeterminesPast` | revocation.go:237-250 | Two linked lists that end in the same hash agree as far back as both go. |
| `RevocationLog.VerifiedIsSegment` | revocation.go:215-272 | A verified update whose accumulator is the issuer's holds a segment of the issuer's chain. |
| `RevocationLog.ReceiveExtends` | revocation.go:215-272 | One update moves the stored segment exactly as interval arithmetic says: refused with a gap, ignored when old, extending otherwise. |
| `RevocationLog.AnyUpdatesGiveSegment` | revocation.go:215-272 | Authentic updates in any order, with repeats and gaps, leave exactly the segment of the issuer's chain that interval arithmetic predicts. |
| `RevocationLog.RevokedAppends` | revocation.go:319-332 | Revoking appends one linked event per attribute, in order. |
| `RevocationStorage.MemRevStorage.Heads` | revocation_db.go:494-512 | On a valid storage all heads are found, without error. |
| `RevocationStorage.MemRevStorage.Store` | revocation_db.go:520-536 | The stored updates replace accumulators and append events, and the maps keep speaking about the same keys. |
| `RevocationStorage.MemRevStorage.AddUpdate` | revocation.go:215-272 | The logs afterwards are those of the specification; an error changes nothing. |
| `RevocationStorage.AddExact` | revocation.go:215-272 | Adding succeeds exactly if the log of the update's key can take it up, touches no other log, and an update that is not older becomes its end, with its own accumulator; no operation panics. |
| `RevocationStorage.MemRevStorage.RevokeRecords` | revocation.go:299-363 | Succeeds exactly if every record can be revoked, with an update for exactly the keys that have records. |
| `RevocationStorage.MemRevStorage.Revoke` | revocation.go:293-366 | All records are revoked or nothing changes. |
| `RevocationStorage.MemRevStorage.UpdateAccumulatorTimes` | revocation.go:426-459 | Every log of a type is re-signed and keeps its events, or nothing changes. |
| `RevocationStorage.MemRevStorage.UpdateAllAccumulatorTimes` | revocation.go:426-472 | One credential type after the other, up to the first that fails. |
| `RevocationStorage.ResignExact` | revocation.go:426-459 | Re-signing a type succeeds exactly if it has all private keys; then every accumulator of that type, and no other, carries the new time, and no event, index or hash has changed. |
| `RevocationStorage.ResignedAllExact` | revocation.go:426-472 | Re-signing a list of types stops at the first without all keys; those before it carry the new time and nothing else has changed. |
| `RevocationStorage.RevokeExact` | revocation.go:293-366 | Revoking succeeds exactly for the authority and if all records can be revoked; then exactly the keys with records get an accumulator of that time and their events. |
| `RevocationStorage.RevokedInOrder` | revocation.go:319-332 | The records of a key are revoked one by one in their order. |
| `RevocationStorage.MemRevStorage.Events` | revocation_db.go:427-444 | The range check with its 64-bit differences. |
| `RevocationStorage.EventsExact` | revocation_db.go:427-444 | For all 64-bit indices a range is answered if and only if it is not empty and fully stored, with exactly the events of those indices. |
| `RevocationStorage.MemRevStorage.LatestAccumulatorUpdates` | revocation_db.go:447-484 | Found exactly for stored keys; every update handed out is the latest part of the log and verifies. |
| `RevocationStorage.RevokingKeepsLog` | revocation.go:319-332 | The head rises by exactly the number of records of that key, whose attributes are the new events in order. |
| `RevocationStorage.ApplyKeepsLogs` | revocation.go:215-366 | Adding, revoking and re-signing keep all logs sound, old events a prefix and heads from falling. |
| `RevocationStorage.RunKeepsLogs` | revocation_db.go:487-537 | So does every sequence of such operations, failed ones included. |
| `RevocationRanges.BinaryPartition` | revocation.go:949-968 | Ends, and returns adjacent ranges from the rounded start to the rounded end, each a power of two from 16 to 512 at a multiple of its length, never growing, equal only at 512. |
| `RevocationRanges.NeverEnds` | revocation.go:949-968 | For 2^64-512 <= to < 2^64-16 no number of rounds ends the loop. |
| `RevocationRanges.EndBelow` | revocation.go:952-953 | The end lies past `to` by at most 16, or wraps to 0. |
| `RevocationRanges.PartitionOrder` | revocation.go:960-966 | Lengths never increase, and each length below 512 occurs at most once. |
| `RevocationRanges.PartitionCovers` | revocation.go:947-949 | Every index between the ends lies in exactly one range. |
| `RevocationRanges.FetchRanges` | revocation.go:778-784 | All ranges pass the server's alignment check; with the latest update they cover everything asked for if and only if the update holds or reaches beyond it, or more than one event is missing, up to 2^64-512. |
| `RevocationRanges.AnswersExact` | revocation_db.go:427-444 | A server with the whole log answers all ranges exactly if the last one ends within the log, with precisely the events between the ends. |
| `RevocationRanges.FetchGivesLog` | revocation.go:759-825 | With at least 16 events in the latest update, the fetched events joined with it are the log from a point not after `from`: no gap. |
| `Dependencies.ValidateDependencies` | schemes.go:1011-1054 | The recursive loops always end and compute the specified verdict. |
| `Dependencies.ErrorIff` | schemes.go:1011-1054 | The other errors are returned exactly if the validation gets to their cause: an unknown type, a type of another scheme, or a chain of 25. |
| `Dependencies.ValidIsObtainable` | schemes.go:1011-1054 | Success means the type is obtainable in a bounded number of rounds without using the checked type on the way. |
| `Dependencies.CircularNeverObtainable` | schemes.go:1007-1009 | The circular error means the type is in no round of the least fixed point. |
| `Dependencies.ValidIffObtainable` | schemes.go:1011-1054 | For every graph: valid if and only if the validation gets to nothing wrong and the type is in the least fixed point, also by derivations that never use it; circular if and only if it gets to nothing wrong and the type is not. |
| `Dependencies.ValidCycle` | schemes.go:995-1002 | A graph of valid types with a cycle along first choices. |
| `WizardTree.ComputePath` | descriptions.go:339-371 | The loops choose per disjunction the first completed conjunction, otherwise the first; an empty disjunction panics. |
| `WizardTree.Choice` | descriptions.go:335-338 | The chosen conjunction is completed, or it is the first and none is. |
| `WizardTree.PathExact` | descriptions.go:339-371 | The path exists exactly if no disjunction is empty; then every disjunction contributes, in order, its first completed conjunction, or its first if none is. |
| `WizardTree.ChildrenExact` | descriptions.go:325-333 | Only an unknown type or an empty disjunction makes the choice panic. |
| `WizardTree.Memory.Get` | descriptions.go:328-333 | The remembered dependencies are those that would be computed. |
| `WizardTree.DepTree.Populate` | descriptions.go:307-323 | Adds exactly the nodes of the dependency tree at their levels. |
| `WizardTree.BelowIff` | descriptions.go:307-323 | Those nodes are exactly the ends of paths of that length along chosen dependencies. |
| `WizardTree.TreeClosed` | descriptions.go:319-322 | A chosen dependency of a node is one level deeper. |
| `WizardTree.TreeContiguous` | descriptions.go:262-266 | No level above a node is empty. |
| `WizardTree.LevelsWithoutHoles` | descriptions.go:274-274 | The number of levels minus one is the deepest level. |
| `WizardTree.ChoosesCycle` | descriptions.go:339-371 | On such a graph, when the user holds nothing, the recursion of populateDepTree does not end at any depth. |
| `WizardTree.EndsIffRanked` | descriptions.go:307-323 | The recursion ends on given types if and only if some rank falls along chosen dependencies of what is reachable from them. |
| `WizardTree.EndsIffPathsShort` | descriptions.go:307-323 | It ends within a number of nested calls if and only if every path along chosen dependencies is shorter and meets no unknown type or empty disjunction. |
| `WizardOrder.SortIds` | descriptions.go:275-281 | Identifiers in strictly ascending order, the same ones. |
| `WizardOrder.ListTree` | descriptions.go:268-297 | Every node once, at its deepest level, deeper levels first, by name within a level. |
| `WizardOrder.BuildDependencyTree` | descriptions.go:229-301 | The items of that list, each taken from the wizard where it has one, followed by the last items, as many as have no credential. |
| `WizardOrder.ListedOnce` | descriptions.go:282-286 | No credential is listed twice. |
| `WizardOrder.ListedIffReachable` | descriptions.go:229-301 | Listed are exactly the credentials reachable from the wizard's items. |
| `WizardOrder.DependenciesFirst` | descriptions.go:229-301 | Every dependency of a listed credential, however indirect, comes before it. |
| `WizardOrder.ItemsKeepOrder` | descriptions.go:229-301 | An item is listed after all items before it in the wizard, unless an earlier one depends on it. |
| `WizardOrder.ItemForIff` | descriptions.go:282-297 | What is listed for a credential is the first wizard item that has it, or a new one. |
| `WizardOrder.TrailingItems` | descriptions.go:299-300 | The appended items are those without a credential, in order, if and only if those were last. |
| `Issuance.Validate` | requests.go:640-681 | Accepts exactly requests consistent with the scheme. |
| `Issuance.RandomBlindNamesIff` | requests.go:640-681 | The random blind names compared are those of the random blind attributes, in order. |
| `Issuance.BuildMetadata` | requests.go:712-719 | Succeeds if and only if counter and dates pass the guards; every field reads back as requested, 65536 as 0, and the expiry bound holds exactly below 65536 weeks. |
| `Issuance.AttributeList` | requests.go:697-749 | Refused if inconsistent; for types as parsed it succeeds if and only if also the metadata can be encoded and a revocation attribute is only given if supported; metadata and one integer per attribute. |
| `Issuance.ReadsBack` | attributes.go:170-203 | For every type the parser accepts, reading by name reads the first attribute of that name: the supplied string minus leading zero bytes, which every mandatory attribute has and no supplied one lacks, nothing for absent optional, random blind, unset or even revocation attributes; a revocation attribute other than the last cannot be read. |
| `Issued.SameReading` | attributes.go:170-203 | Issuer and holder read the same in a complete credential. |
| `Issued.HolderReadsIssued` | attributes.go:170-203 | In a held credential its holder reads what was asked for when it was issued. |
| `Issued.VerifierReadsIssued` | verify.go:106-125 | Wherever an honest client discloses it, a verifier reads what was asked for when it was issued. |
| `Keyshare.Slots.Take` | internal/keysharecore/operations.go:401-408 | Is the taking step of its call: returns what was stored under the key, afterwards that entry is gone and all others are as before. |
| `Keyshare.Slots.Put` | internal/keysharecore/operations.go:261-264 | Is the storing step of its call: the key holds the value and all other entries are as before. |
| `Keyshare.DrawAndPut` | internal/keysharecore/operations.go:230-268 | What a call draws and puts under a key is there afterwards, in place of whatever was, and the call is over. |
| `Keyshare.TakeAndFinish` | internal/keysharecore/operations.go:270-368 | A call for that key takes it; with the right answer its use is accepted, and it is gone. |
| `Keyshare.FinishUses` | internal/keysharecore/operations.go:98-113 | Every finished call is one use of what it took, accepted exactly if the answer is that value and all else matches. |
| `Keyshare.StepKeepsPlaces` | internal/keysharecore/operations.go:230-368 | In every step each secret or challenge is in at most one place: a map entry, a running call, or a use. |
| `Keyshare.StepKeepsKeys` | internal/keysharecore/operations.go:370-408 | What is taken or used was stored under that very key. |
| `Keyshare.EachUsedOnce` | internal/keysharecore/operations.go:98-113 | In every interleaving each commitment secret enters at most one response and each challenge at most one authentication attempt, for the key it was stored under, even if commit ids repeat. |

## Left out

- CL signatures, zero-knowledge proofs, accumulator arithmetic and hashing: parameters with the contracts listed above.
- SQL, Redis, bbolt and file storage, scheme download and signature checks: I/O; `memRevStorage` and `memorySessionStore` are modelled.
- HTTP routing, server-sent events, JWT, JSON, XML and CBOR encoding, AES-GCM, logging, callbacks, the command line tool.
- The two token maps of the session store, `add`, `deleteExpired` and the check of the expected host: they only select the session the model is about.
- SessionStore.Next: a transaction is a step that copies and a step that does the rest; the pointer comparison is modelled by the position in the history of stored sessions, and a failing JSON copy is left out.
- Session fields that no decision depends on (tokens, keyshare proofs, the request text, the disclosed attributes in the result).
- `credentialsCache`, `ConfigurationUpdated` and background jobs of the client; credentials of unknown type.
- Verify.ParseAttribute: a disclosed attribute does not repeat the reported time of its proof (NotRevokedBefore).
- Verify.VerifyAgainstRequest: which malformed proofs panic rather than being INVALID is modelled but not characterised.
- Timestamps of signatures, and `SignedMessage.Verify` beyond what it shares with disclosures.
- Session.HandleCommitments: extraction of keys, merging of keyshare proofs and signing are outcomes (`prepared`, `verifyError`, `signed`).
- Chaining.ChainOfAnyLength: sessions in which the implicit disclosure was appended once (SessionStore.AppendedOnceIff says which); the verdict is that on a list of disclosure proofs, without the commitments of an issuance session.
- Candidates.ConOptionsExact: per conjunction; conjunctions of one disjunction may list the same option.
- RevocationStorage.MemRevStorage.Revoke: the issuance records are a parameter, since the in-memory storage holds none; storing their revocation time is left out.
- RevocationStorage.MemRevStorage.UpdateAllAccumulatorTimes: posting the updates to listeners is left out.
- RevocationLog.Added: event indices are unbounded, so `head + 1` does not wrap.
- RevocationRanges.FetchGivesLog: the asynchronous requests are answered in any order and sorted by the library, so the answers are taken in order.
- Issuance.BuildMetadata: the default validity of six calendar months is the caller's parameter.
- Base-62 text of random blind attributes: a parameter of the configuration.
- WizardOrder.Less: identifiers are compared by character, the source compares bytes.
- `buildValidationPaths`, `appendItems`, FAQ validation, translations, legacy request formats.
- PIN checks, access tokens and user secrets of the keyshare core.
