# Verified model of the xApp token-binding stack

The repository binds OAuth access tokens to credentials: a post-quantum tunnel between
sidecars, a resource-side validator with a replay cache, a client that rotates its
certificates and tokens, an enrollment authority, and an upgrade service ("shim") that
transfers a binding from a classical credential to an ML-DSA one. This project models the
parts that keep state and proves what they keep, over every run, with ideal cryptography.

`dafny verify dfyconfig.toml` checks everything.

## How it is organised

| modules | what they model |
|---|---|
| `ByteStrings`, `Frame`, `PeerIdentity`, `Hello` | the wire codec: frames, fields, certificate chains, hello messages, and that accepted messages are canonical and prefix-free |
| `Handshake`, `Session` | the two-message handshake, as a protocol among any sessions and an adversary that injects every message, and `Client`/`Server` as methods proved to be steps of it |
| `Records`, `Conn`, `Stream`, `Channel` | the record layer: the rules of one call, the connection object with its loops, every run of it over a network that drops, duplicates, reorders and injects frames, and whose records an end of a handshake opens |
| `Tunnel`, `Ingress`, `Sidecar` | the sidecar protocol on top: control messages, the authorization gate, then the relayed application bytes |
| `Replay`, `SingleUse`, `Validator` | the replay cache against an eager reference, single use of proofs when clock reading and cache step interleave, and the validator's checks |
| `Shim`, `Upgrades` | one upgrade request, and all concurrent runs of the service |
| `ClientModel`, `Client`, `EveryToken`, `Maintenance` | the client as a state machine, as an object proved equal to it, the every-token policy, and the renewal loop in time |
| `Ledger`, `Enrollment` | the ledger's text and its behaviour over crashes, and the tree of certificates the authority grows |

Code that changes fields or loops over data is a class or a method here; each is proved
against a function or predicate, and the theorems are about those.

Ideal assumptions: an AEAD opens exactly what its log holds under that key and nonce; a
signature verifies exactly when it is in the log, and keys of honest parties sign only in
their sessions (their signature bytes may be altered); encapsulation returns fresh pairs;
SHA-256 and HKDF are free constructors; a parsed certificate keeps its input as `Raw`. In
`Channel` only ends of the run seal records: a dishonest peer, which knows the keys of its
own session, seals nothing in `Channel.OpensAnothersRecord`, and for an honest peer nobody
else knows the keys.

## What turned out not to hold as first hoped

Each of these has a run or an input that fails, and a theorem that says exactly when the
promise holds; for the last, three lemmas that say what an end of stream tells.

* **A nonce is reused after a failed frame.** A failed `writeFrame` leaves `wSeq` as it was
  (conn.go:116), and `relay` calls `CloseWrite` after a failed copy (sidecar.go:143-146);
  the end marker then has the failed record's nonce (`Stream.CloseAfterFailureRepeats`).
  Nonces are distinct exactly in the runs that neither write nor close after a failure
  (`Stream.NoncesDistinctIff`). After the close, what the peer reads is still a prefix
  (`Stream.StreamSafety`). After a `Write` it is one, over all networks, exactly if the
  failed record would fit in the place of the new data's first one (`Stream.RetrySafeIff`):
  a retry of the same bytes is harmless, because it seals the same record, and data that
  begins with another byte never is (`Stream.WriteAfterFailureBreaksStream`).
* **Single use has an exact lag bound, which depends on the cache.** For a cache of two
  entries or more, and a window and skew worth a second, a proof is single use in all runs
  exactly when readings lag less than the clock skew (`SingleUse.SingleUseIffLagBelowSkew`).
  For smaller policies the whole seconds of `iat` can tolerate a little more, and a cache of
  one entry tolerates any lag, since it refuses everything else in the meantime
  (`SingleUse.SingleUseIff`).
* **A certificate can expire between ticks.** `Maintain` takes its period from the classical
  margin only, so a post-quantum certificate with a smaller margin can expire
  (`Maintenance.PqPlaneCanExpire`). And a second of margin is not always enough for the
  classical one: with CERT_LIFETIME=1.5s and RENEW_BEFORE=1s, truncation of `NotAfter` to
  whole seconds can let a certificate issued just before the loop starts expire by its first
  tick (`Maintenance.ShortLifetimeCanExpire`). The exact condition for each plane is
  `Maintenance.NeverExpiresIff`: the interval is within the margin, and within the lifetime
  less a second.
* **Renewals can come closer than lifetime minus margin**, by less than a second, for the same
  reason: with CERT_LIFETIME=5s and RENEW_BEFORE=2.5s they can be less than 2.5s apart
  (`Maintenance.RenewalsCanCrowd`). They never do exactly when no multiple of the interval
  falls into the last second before lifetime minus margin (`Maintenance.SpacedByMarginIff`).
* **Every-token rotation holds exactly without a post-quantum plane**
  (`EveryToken.PolicyHoldsIff`): with one, a rotation that renews the classical certificate
  and fails on the other clears `tokensOnCert`, and the next token reuses the certificate.
* **A non-integer `exp` is not a cap.** The validator accepts a numeric `exp` such as
  `1700000000.5` (validator.go:420-435), while the shim ignores it (shim.go:471-484,
  with `ok` false), so the new token may outlive the classical one
  (`Upgrades.FractionalExpiryIsExtended` is a run of the service that mints one, and
  `Upgrades.BindingTransfer` says exactly which minted tokens do).
* **A ledger line cut short lets a credential in twice.** A write that fails after part of a
  line, or a crash in the middle of one, leaves a remnant; the next credential is written
  behind it, and after a restart it is not found (`Ledger.CutLineLetsACredentialInTwice`).
  Single use of credentials holds over runs in which no entry goes onto such a remnant
  (`Ledger.ConsumedOnce`), and a restart breaks it exactly at an entry that does
  (`Ledger.ConsumedTwiceIff`, `Enrollment.EnrolledTwiceIff`).
* **An end of stream is not always the end of the data.** `relay` calls `CloseWrite` on its
  destination after any copy (sidecar.go:142-147). An application that is shown an end has
  everything if the tunnel's end marker was read and the sender's source had ended
  (`Tunnel.EndMeansComplete`); a copy cut by the network shows it an end too early
  (`Tunnel.CutLooksLikeAnEnd`), and a source that failed is sealed like one that ended
  (`Tunnel.ResetLooksLikeAnEnd`).

## Model

| member | source | states |
|---|---|---|
| `ByteStrings.Uint32OfPut` | sidecar/pqtunnel/frame.go:22-23 | a length header reads back as the length modulo 2^32 |
| `ByteStrings.PutOfUint32` | sidecar/pqtunnel/frame.go:66 | every four-byte header is the encoding of the number read from it |
| `ByteStrings.Uint64OfPut` | sidecar/pqtunnel/conn.go:92-97 | a counter below 2^64 is recovered from its nonce bytes |
| `Frame.FieldUnique` | sidecar/pqtunnel/frame.go:48-54 | a field at the front of a byte string is determined by the string, and so is what follows it |
| `Frame.FieldsUnique` | sidecar/pqtunnel/frame.go:48-54 | the same for any number of consecutive fields |
| `Frame.Reader.ReadField` | sidecar/pqtunnel/frame.go:62-74 | takes the field in front, and fails exactly when there is none; the cursor moves past a header whose body is missing |
| `Frame.Reader.Done` | sidecar/pqtunnel/frame.go:76-81 | true exactly when nothing is left |
| `Frame.WriteFrame` | sidecar/pqtunnel/frame.go:17-29 | success sends the whole frame; failure sends a prefix of it, and nothing of a frame over the limit |
| `Frame.ReadFrame` | sidecar/pqtunnel/frame.go:31-46 | returns the frame in front; over a lossless connection it fails only when no admissible frame is in front |
| `PeerIdentity.EncodeChain` | sidecar/pqtunnel/identity.go:35-43 | writes the count and then every certificate as a field |
| `PeerIdentity.ChainBytesUnique` | sidecar/pqtunnel/identity.go:35-43 | two chains with the same encoding are the same chain |
| `PeerIdentity.DecodeChain` | sidecar/pqtunnel/identity.go:45-70 | accepts exactly the encodings of one to eight parseable certificates, and returns the chain that was encoded |
| `PeerIdentity.MatchesName` | sidecar/pqtunnel/identity.go:89-99 | true exactly when the common name or some DNS name folds to the wanted name |
| `PeerIdentity.Authenticate` | sidecar/pqtunnel/identity.go:72-87 | accepts exactly chains that verify for the role, with an ML-DSA leaf and, if a name is asked for, that name as common name or DNS name |
| `Hello.ShapedPrefixFree` | sidecar/pqtunnel/handshake.go:133 | two messages of header and three fields that start one byte string are equal, part by part, with what follows them |
| `Hello.HelloPrefixFree` | sidecar/pqtunnel/handshake.go:214-247 | no accepted hello is a proper prefix of another, so hello and what is appended are recovered from their concatenation |
| `Hello.SignedRegionIsBody` | sidecar/pqtunnel/handshake.go:131-133 | the slice a verifier cuts off before the signature field is the body the signer signed |
| `Hello.ParseHello` | sidecar/pqtunnel/handshake.go:214-247 | accepts exactly the serialisations of well-formed hellos, and what it returns serialises back to the message |
| `Handshake.StepKeepsInv` | sidecar/pqtunnel/handshake.go:85-212 | every step of a client, a server or the adversary keeps: honest signatures come from sessions, secrets from their encapsulation, ephemeral keys and secrets are never shared |
| `Handshake.PeersAreAuthenticated` | sidecar/pqtunnel/identity.go:75-87 | in every run, every session that finishes or responds did so with a chain verified for the peer's role, an ML-DSA leaf and, if a name was expected, that name |
| `Handshake.KeySchedule` | sidecar/pqtunnel/conn.go:43-59 | each direction's key and IV come from the secret and transcript under that direction's own label, crosswise at the two ends |
| `Handshake.ClientAgreement` | sidecar/pqtunnel/handshake.go:131-150 | a client that finished with an honest key has exactly one server session of that key as partner, which signed this client hello and this server body and holds the same secret; transcripts are equal and keys and IVs cross over if and only if the server's signature bytes arrived unaltered |
| `Handshake.ServerAgreement` | sidecar/pqtunnel/handshake.go:171-183 | a server that accepted an honest client's hello answers exactly one session, in which that client signed this chain and this encapsulation key |
| `Handshake.OneSealerPerKey` | sidecar/pqtunnel/handshake.go:249-267 | no two sessions of a run, on either side, ever hold the same sealing key |
| `Handshake.OnlyPartnerSeals` | sidecar/pqtunnel/conn.go:56-59 | whoever seals under the key that a client with an honest peer opens with is its one partner session |
| `Channel.OpensAnothersRecord` | sidecar/pqtunnel/conn.go:150-169 | whatever the network hands to an end, what opens under its key and IV was sealed at this number of the stream by one end of the other role, so no end opens a record of its own |
| `Channel.OpensPartnersRecord` | sidecar/pqtunnel/conn.go:150-169 | for a client with an honest peer that end is its unique handshake partner |
| `Session.SignerFor` | sidecar/pqtunnel/identity.go:101-114 | hands out a credential exactly when it has a chain and an ML-DSA key |
| `Session.ClientSend` | sidecar/pqtunnel/handshake.go:85-119 | is the client's first protocol step, and success leaves the whole hello on the wire and the session pending |
| `Session.ClientReceive` | sidecar/pqtunnel/handshake.go:121-151 | keys are returned only by an enabled finishing step on the reply read, and over a lossless connection every acceptable reply gives keys; failure changes nothing |
| `Session.Respond` | sidecar/pqtunnel/handshake.go:154-212 | keys are returned only by an enabled responding step whose hello was read and whose answer was written whole; a welcome hello is never ignored |
| `Records.ChunksJoin` | sidecar/pqtunnel/conn.go:107-122 | splitting loses nothing and never makes the empty record that means end of stream |
| `Records.NonceInjective` | sidecar/pqtunnel/conn.go:92-97 | equal nonces of one direction come from equal counters |
| `Records.LookupSound` | sidecar/pqtunnel/conn.go:163 | opening finds a plaintext exactly when one was sealed under that nonce with that ciphertext |
| `Records.OpensInTurn` | sidecar/pqtunnel/conn.go:150-169 | the record the reader waits for opens to what was sealed in it |
| `Records.ReadInTurn` | sidecar/pqtunnel/conn.go:126-148 | a read in order returns the next pending bytes, whatever records they came in, and loses none |
| `Conn.MessagesComeBack` | sidecar/pqtunnel/conn.go:193-220 | any control messages followed by raw bytes are taken apart exactly, with the raw bytes intact |
| `Conn.Conn.Write` | sidecar/pqtunnel/conn.go:99-124 | seals the chunks of the data in order and counts the ones sent; a failure has sealed one record beyond the counter and reports the bytes before it; nothing after CloseWrite |
| `Conn.Conn.CloseWrite` | sidecar/pqtunnel/conn.go:171-188 | seals one empty record under the current number, once, and nothing after it |
| `Conn.Conn.WriteMessage` | sidecar/pqtunnel/conn.go:193-203 | writes the message as one field, or refuses it untouched when it is too long |
| `Conn.Conn.Read` | sidecar/pqtunnel/conn.go:126-148 | takes a frame only with an empty buffer and no end seen, does with it what the record rules say, and over an in-order lossless network makes progress |
| `Conn.Conn.ReadRecord` | sidecar/pqtunnel/conn.go:150-169 | yields a plaintext exactly when the frame carries the expected nonce and opens, and only then advances the counter |
| `Conn.Conn.ReadFull` | sidecar/pqtunnel/conn.go:208 | returns exactly the bytes asked for, in order, and in order never fails while they are pending |
| `Conn.Conn.ReadMessage` | sidecar/pqtunnel/conn.go:205-220 | returns the message in front of the stream and consumes nothing beyond it |
| `Conn.Conn.ReadMessagesThen` | sidecar/pqtunnel/conn.go:205-220 | calls of ReadMessage return any messages sent in a row, and the reads after them exactly the raw bytes that follow |
| `Stream.StepKeepsInv` | sidecar/pqtunnel/conn.go:99-188 | every write, close and read, with any frame from the network, keeps the agreement of log, counters and delivered bytes |
| `Stream.StreamSafety` | sidecar/pqtunnel/conn.go:99-188 | over any network the bytes read are a prefix of the bytes sealed, and of the bytes Write counted unless a frame failed; the end is seen only after CloseWrite and every counted byte |
| `Stream.CountersAgree` | sidecar/pqtunnel/conn.go:112-119 | the write counter is the number of records sealed, less a failed one; the reader is never ahead of what was sealed, and equals the writer's counter once it has seen the end |
| `Stream.NoncesDistinctIff` | sidecar/pqtunnel/conn.go:99-188 | over every run, whatever the caller does, all nonces differ if and only if it never writes data or closes after a failed frame |
| `Stream.CloseAfterFailureRepeats` | sidecar/sidecar.go:142-148 | a first frame that fails and then CloseWrite: a run in which two records share a nonce |
| `Stream.CountedBoundsDeliveredIff` | sidecar/pqtunnel/conn.go:116-120 | however the reader goes on, it stays within the bytes Write counted if and only if no frame failed |
| `Stream.WriteAfterFailureBreaksStream` | sidecar/pqtunnel/conn.go:112-119 | from every state with a failed frame, a Write of data that begins with another byte than the failed record lets the network break the prefix |
| `Stream.RetrySafeIff` | sidecar/pqtunnel/conn.go:99-124 | from every such state and for all data, all networks keep the reader within what Write counted if and only if the failed record in place of the first new one would give a prefix of the data |
| `Stream.SameRetryIsSafe` | sidecar/pqtunnel/conn.go:112-119 | writing the failed bytes again keeps the stream |
| `Stream.ExactDelivery` | sidecar/pqtunnel/conn.go:99-188 | in order, any Writes and a CloseWrite read with any positive buffers give exactly what was written, then the end |
| `Stream.PendingIsTheRest` | sidecar/pqtunnel/conn.go:126-148 | what was accepted is what was delivered followed by what the reader still has pending |
| `Stream.ControlFraming` | sidecar/pqtunnel/conn.go:190-220 | control messages then raw bytes, written over records, come back as the same messages and bytes |
| `Stream.ReadBack` | sidecar/pqtunnel/conn.go:190-220 | a connection that reads what was sealed for some messages and bytes gets those messages from ReadMessage and then those bytes from Read |
| `Tunnel.HalfDelivers` | sidecar/ingress.go:42-46 | in one direction a completely received control message is the one sent, and the application gets a prefix of the payload, all of it at an unfailed end |
| `Tunnel.EndMeansComplete` | sidecar/sidecar.go:140-147 | an application shown an end has all the other one wrote, if the end marker was read, everything was passed on and the source had ended |
| `Tunnel.CutLooksLikeAnEnd` | sidecar/sidecar.go:142-147 | while the sender can still write, the network can have the application shown an end before the data |
| `Tunnel.ResetLooksLikeAnEnd` | sidecar/sidecar.go:142-147 | a source that failed leaves the receiver in the same state as one that ended |
| `Tunnel.StepKeepsInv` | sidecar/sidecar.go:139-153 | every step of either end, half-closes included, keeps who may relay and what was delivered |
| `Tunnel.TunnelledStream` | sidecar/egress.go:50-83 | in every run application bytes move only once the gate accepted the very frame sent, outbound ones only after that was read, frames never reach an application, and each gets a prefix of what the other wrote |
| `Ingress.Gate.IngressTarget` | sidecar/config.go:106-114 | finds the first route of that name, and nothing exactly when none is served |
| `Ingress.Gate.AuthorizeChannel` | xapp-resource/channel.go:41-73 | refuses an empty token or a target that is not absolute, and otherwise decides as for a request from this peer |
| `Ingress.Gate.Accept` | sidecar/ingress.go:47-92 | accepts exactly the callers the gate admits, reports the first check of the frame that fails, and leaves the replay cache as that decision does |
| `Ingress.AdmissionShows` | sidecar/ingress.go:50-92 | an admitted caller addressed this route, passed the validator's checks, and is the handshake's peer where both are named |
| `Ingress.AdmittedTarget` | sidecar/ingress.go:50-65 | an admitted frame is version 1, for a served route, with target https://authority/route |
| `Ingress.OneTargetOneRoute` | sidecar/ingress.go:60-65 | two admitted frames with one target are for one route |
| `Ingress.BuildAuthFrame` | sidecar/auth.go:44-77 | the frame is for the route's own name and target |
| `Ingress.EgressFrameIsForIts` | sidecar/auth.go:37-40 | a frame that an egress builds for a served route is one for the ingress if and only if it connects to that ingress's authority, with a token and an absolute target |
| `Ingress.AdmittedByCertificateIff` | sidecar/ingress.go:50-92 | every condition, in the frame's fields, under which a certificate-bound token opens a tunnel |
| `Ingress.AdmittedByKeyIff` | sidecar/ingress.go:50-92 | every condition under which a key-bound token does: one fresh proof by that key, for this token, a tunnel and this target |
| `Ingress.GateOverRuns` | sidecar/ingress.go:62-92 | over any run everyone admitted has shown all of that, and no proof opens two tunnels while readings lag less than the skew |
| `Ingress.AuthorizedStream` | sidecar/ingress.go:30-111 | application bytes move on a connection only if the frame this egress wrote shows everything the gate demands of this peer |
| `Sidecar.Forward` | sidecar/egress.go:53-83 | relays only after sealing the whole frame, nothing else, and reading a reply that accepts |
| `Sidecar.Accept` | sidecar/ingress.go:42-111 | relays only after one frame that opens the gate and one whole accepting reply; seals nothing but its reply |
| `Replay.ReplayCache.Store` | xapp-resource/replay.go:30-49 | the in-place sweep loop computes the cache function's answer and next state |
| `Replay.LazyRefinesEager` | xapp-resource/replay.go:30-49 | with a clock that never goes back every answer is that of the eager live set, whenever sweeps ran |
| `Replay.NeverOverfull` | xapp-resource/replay.go:36-47 | the number of entries never exceeds the maximum, with any clock |
| `SingleUse.CacheKeyInjective` | xapp-resource/validator.go:388 | different thumbprint or jti, different cache key |
| `SingleUse.SingleUseUnderLag` | xapp-resource/validator.go:382-388 | from any cache, readings that lag less than the skew accept a proof at most once |
| `SingleUse.SingleUseIff` | xapp-resource/validator.go:382-388 | over a cache of a given size, proofs issued at whole seconds are single use in all runs of a given lag if and only if the cache is too small to hold two, with a positive skew, or the lag is below the skew, or no later whole second can reach the cache in time to sweep |
| `SingleUse.SingleUseIffLagBelowSkew` | xapp-resource/validator.go:382-388 | for every cache of two entries or more, and a window and skew worth a second, the bound is exactly the skew |
| `SingleUse.LateReadingBreaksSingleUse` | xapp-resource/replay.go:30-49 | for every size of the cache and every lag not tolerated there is a run that accepts a proof twice |
| `SingleUse.OneSlotSingleUse` | xapp-resource/replay.go:36-47 | with room for one entry and a positive skew a proof is accepted once at any lag |
| `SingleUse.ReplayedWasAccepted` | xapp-resource/validator.go:389-390 | a proof refused as replayed has a thumbprint and jti that were accepted before |
| `SingleUse.ConcurrentSingleUse` | xapp-resource/validator.go:382-388 | in any interleaving of clock readings and cache steps that keeps the lag, a proof is accepted at most once |
| `Validator.Validator.CheckDPoPBinding` | xapp-resource/validator.go:301-395 | accepts exactly a single fitting proof by the token's key, for this token and request, that the cache accepts; only such a proof reaches the cache |
| `Validator.Validator.CheckCertificateBinding` | xapp-resource/validator.go:277-299 | accepts exactly a trusted peer certificate with the token's thumbprint, under the right scheme |
| `Validator.Validator.Authorize` | xapp-resource/validator.go:106-178 | grants exactly valid, authorized, bound tokens whose every binding this request proves, and spends a proof only then |
| `Validator.CertificateTokenGrantedIff` | xapp-resource/validator.go:277-299 | a certificate-bound token is granted exactly with the Bearer scheme, the required claims and a trusted certificate of its thumbprint on this session |
| `Validator.KeyTokenGrantedIff` | xapp-resource/validator.go:301-395 | a key-bound token is granted exactly with one proof by its key for this token, method and URI, in the window and new to the cache |
| `Validator.UnboundIsDenied` | xapp-resource/validator.go:138-157 | a token without a usable cnf is denied and spends nothing |
| `Shim.OneBinding` | pqshim/shim.go:285-343 | a proof can ask for at most one binding |
| `Shim.ProvesCertificateIff` | pqshim/shim.go:285-318 | every condition of a certificate proof: type, algorithm, trusted ML-DSA chain of the authenticated client, its signature, and this token, method and URI |
| `Shim.ProvesKeyIff` | pqshim/shim.go:319-346 | every condition of a key proof |
| `Shim.Server.ChainFromProof` | pqshim/shim.go:351-373 | yields the chain exactly when x5c is a non-empty list of parseable certificates |
| `Shim.Server.Credential` | pqshim/shim.go:285-343 | yields the credential the proof shows possession of, and none exactly when it shows none |
| `Shim.Server.CheckProofClaims` | pqshim/shim.go:375-423 | succeeds exactly for a proof of this token and request that is fresh; the cache sees no other |
| `Shim.Server.VerifyPQProof` | pqshim/shim.go:262-349 | yields exactly the binding the request proves, if the cache accepts its proof |
| `Shim.Server.Issue` | pqshim/shim.go:424-465 | the copying loop builds the claims that the lemmas below are about |
| `Shim.Server.Upgrade` | pqshim/shim.go:193-241 | mints only for a granted classical token and an accepted proof, copies the claims of that token, and leaves the proof unspent when it is refused |
| `Shim.TokenTransfers` | pqshim/shim.go:437-451 | sub, aud, azp, client_id, scope, realm_access and resource_access are carried over unchanged, the new credential is the only cnf member, and there is nothing else but the shim's own claims |
| `Shim.DecisionTransfers` | xapp-resource/validator.go:258-275 | whatever scope and role are required, the new token has them exactly if the classical one has, and it names the same client |
| `Shim.PermitsIff` | xapp-resource/validator.go:258-275 | a token is authorized exactly if the required scope is among its scope's fields and the required role among its realm roles |
| `Shim.ClientOf` | xapp-resource/validator.go:438-445 | the client is client_id if that is a non-empty string, or else azp |
| `Shim.TokenStates` | pqshim/shim.go:437-460 | issuer, times, identifier and the binding the token was upgraded from |
| `Shim.TokenEnds` | pqshim/shim.go:426-433 | the token has exactly the lifetime, or ends exactly with an integer classical exp that comes before |
| `Shim.NoLongerThanClassicalIff` | pqshim/shim.go:428-433 | the token does not outlive the classical one if and only if that exp is an integer or the lifetime ends first |
| `Upgrades.StepKeepsInv` | pqshim/shim.go:193-241 | every interleaved step of concurrent requests keeps: each proved or minted request owns an accepted submission of its own |
| `Upgrades.BindingTransfer` | pqshim/shim.go:193-241 | in every run each minted token moves a valid classical binding, the one its own client and cnf claims name, to a credential its holder proved for that token, with claims, cnf and end as promised, outliving the classical token exactly if that exp is no integer and the lifetime is longer; and no two come from one proof |
| `Upgrades.FractionalExpiryIsExtended` | pqshim/shim.go:428-433 | a run of the service in which a granted token with a non-integer exp, in its last second, is upgraded to one with the whole lifetime ahead |
| `ClientModel.ApplyKeepsInv` | xapp-client/client.go:346-361 | every operation, with any answers from outside, keeps the cached token bound to the credentials held |
| `ClientModel.CacheBinding` | xapp-client/client.go:470-473 | after any run, half-failed rotations included, the cached and the returned token carry the active leaf's thumbprint and NotAfter |
| `ClientModel.TokensNameTheirCredential` | xapp-client/certbound.go:75-84 | after any run the cnf that the returned token itself carries names the credential shown, the classical token before it named the classical one, and every token ever accepted names one the client has had |
| `ClientModel.CertBoundAcceptedIff` | xapp-client/certbound.go:56-103 | exactly the replies from which Methods A and B make a token, which is that reply unchanged |
| `ClientModel.KeyBoundAcceptedIff` | xapp-client/dpop.go:149-204 | exactly the replies from which Method C makes a token, with one nonce demand answered |
| `ClientModel.RenewalDueIff` | xapp-client/client.go:428-439 | renewal is due exactly when a plane in use has no certificate or one within its margin |
| `ClientModel.RotationIff` | xapp-client/client.go:491-515 | rotation succeeds exactly if every certificate is valid and every request answered, installs those answers in order and drops what was bound before |
| `ClientModel.CachedIsReturned` | xapp-client/client.go:101-107 | while nothing is due, a cached token and certificate with five seconds left are used as they are |
| `ClientModel.ReturnedIsUsableOrNew` | xapp-client/certbound.go:26-43 | any token returned was accepted in this call or is the cached one with five seconds left, its certificate too |
| `ClientModel.TokenRotatesIff` | xapp-client/certbound.go:37-42 | with nothing due, credentials change only for the every-token policy on a certificate that has carried a token |
| `ClientModel.DueIsRenewedFirst` | xapp-client/certbound.go:29-33 | with something due, a token is issued only after a rotation that succeeded |
| `ClientModel.IssueTokenIsNew` | xapp-client/certbound.go:45-54 | IssueToken never answers from the cache |
| `ClientModel.StartedPlaneIff` | xapp-client/client.go:396-426 | a plane starts exactly with what it has, a valid certificate from disk, renewed if due, or a new one; one that is kept was valid and outside its margin when read |
| `ClientModel.StartIff` | xapp-client/client.go:346-358 | start succeeds exactly if every plane in use does, and then each has a certificate |
| `ClientModel.NoDowngradeAndMatchingKey` | xapp-client/pq.go:81-84 | in post-quantum mode every token ever accepted is ML-DSA signed and marked, otherwise none is marked, and under Method C the proof key chosen is the one in the token's cnf |
| `Client.Client.EnrollLocked` | xapp-client/client.go:441-488 | success installs the certificate and drops the token and count of the old one, failure changes nothing |
| `Client.Client.RotateLocked` | xapp-client/client.go:504-515 | renews the planes in order as the state machine does, stopping at the first failure |
| `Client.Client.Rotate` | xapp-client/client.go:517-522 | renews as the state machine, and leaves the cached token bound to the credentials held, also when it fails half way |
| `Client.Client.StartIdentity` | xapp-client/client.go:396-426 | loads, renews or enrols one plane as the state machine does |
| `Client.Client.IssueCertBoundLocked` | xapp-client/certbound.go:56-123 | caches and returns exactly the tokens the state machine accepts for Methods A and B |
| `Client.Client.IssueDPoPLocked` | xapp-client/dpop.go:149-229 | the retry loop answers one nonce demand and accepts exactly the tokens the state machine accepts for Method C |
| `Client.Client.Token` | xapp-client/certbound.go:26-43 | renewal, cache, every-token rotation and issuing, in the order of the state machine; the token returned is bound to the credential held on return |
| `Client.Client.IssueTokenNow` | xapp-client/certbound.go:45-54 | renewal and issuing past the cache, as the state machine; the token returned is bound to the credential held on return |
| `Client.Client.MaintainTick` | xapp-client/client.go:534-543 | the loop over the planes is one tick of the state machine |
| `EveryToken.PolicyHoldsIff` | xapp-client/certbound.go:37-41 | for Method B with the policy no two accepted tokens share a certificate in any run without IssueToken, if and only if there is no post-quantum plane |
| `EveryToken.HalfRotationReusesCertificate` | xapp-client/client.go:470-473 | with one, a run in which half a rotation fails binds two tokens to one certificate |
| `Maintenance.NeverExpiresIff` | xapp-client/client.go:525-546 | for any margin below the lifetime, a plane is never found expired at a tick, from any start with a certificate not yet due or issued just now, if and only if the interval is within the margin and within the lifetime less a second |
| `Maintenance.ClassicalNeverExpires` | xapp-client/client.go:526-527 | a second of margin, below a lifetime of two seconds or more, is enough for the classical plane |
| `Maintenance.ShortLifetimeCanExpire` | xapp-client/config.go:180-185 | a configuration that passes validation with a second of margin whose classical certificate expires at a tick |
| `Maintenance.PqPlaneCanExpire` | xapp-client/config.go:209-223 | a configuration that passes validation whose post-quantum certificate expires between ticks |
| `Maintenance.RenewalSpacing` | xapp-client/client.go:428-432 | successive renewals are at most lifetime - margin + interval apart, and at least lifetime - margin but for the second that truncation may cost |
| `Maintenance.SpacedByMarginIff` | xapp-client/client.go:428-432 | renewals are at least lifetime - margin apart, from every start, if and only if no multiple of the interval falls into the last second before it |
| `Maintenance.RenewalsCanCrowd` | xapp-client/config.go:180-185 | a configuration that passes validation whose renewals can come closer |
| `Maintenance.LoopIsPlaneLoops` | xapp-client/client.go:530-545 | over any number of ticks the loop treats each plane's certificate as if the other plane were not there |
| `Maintenance.TickRate` | xapp-client/client.go:526-527 | ticks come at least once a minute and at most once a second, and four to a classical margin as nearly as that allows |
| `Ledger.CredentialKeyInjective` | ca/enroll/ledger.go:46-48 | different issuer or serial, different key |
| `Ledger.CredentialKeyPlain` | ca/enroll/ledger.go:46-48 | a key holds no space and no newline |
| `Ledger.ReadKeys` | ca/enroll/ledger.go:37-43 | reads exactly the keys the lines list, and fails exactly on a line beyond the scanner's limit |
| `Ledger.ContentScans` | ca/enroll/ledger.go:64 | the file reads back, line by line, as the entries appended |
| `Ledger.LineInjective` | ca/enroll/ledger.go:64 | no two entries of plain names and stamps share a line |
| `Ledger.ContentKeys` | ca/enroll/ledger.go:37-43 | the keys read back are exactly the keys appended |
| `Ledger.TornLineForgetsIff` | ca/enroll/ledger.go:64-66 | after a line cut short the next entry is read back if and only if nothing was left or the remnant names the same key |
| `Ledger.AppendListsIff` | ca/enroll/ledger.go:64-66 | an append to any text is read back if and only if the text ends a line, or its remnant or an earlier line names the same key |
| `Ledger.UsedCredentials.Consume` | ca/enroll/ledger.go:50-72 | success means the key was unused and its entry is durable; failure never marks it used and may leave any part of its line |
| `Ledger.OpenReadsText` | ca/enroll/ledger.go:24-44 | from a file of whole lines, opening restores exactly the keys appended |
| `Ledger.ConsumedOnce` | ca/enroll/ledger.go:50-72 | over any run with failed writes, crashes at any character and reopenings, no key is consumed twice, as long as no entry goes onto a remnant that hides it |
| `Ledger.ConsumedTwiceIff` | ca/enroll/ledger.go:53-70 | in any state whose file stays readable, an unused key can be consumed, and after a restart again, if and only if its entry goes onto such a remnant |
| `Ledger.CutLineLetsACredentialInTwice` | ca/enroll/ledger.go:64-66 | one write that failed after its first character, and then any other credential is consumed twice |
| `Enrollment.DnsSuffixAllowed` | ca/enroll/server.go:383-393 | true exactly when no suffix is configured or some configured one ends the name |
| `Enrollment.DnsGrantedIff` | ca/enroll/server.go:289-296 | a name is granted exactly if the caller has it and it ends with an allowed suffix, where there are any |
| `Enrollment.PermittedIff` | ca/enroll/server.go:228-296 | every condition of policy, in the fields of the request and the configuration |
| `Enrollment.IssuedAsAsked` | ca/enroll/server.go:315-329 | the certificate is for the caller's name, the request's names and key, from now for the lifetime asked, or the default if none was |
| `Enrollment.Server.Issue` | ca/enroll/server.go:228-347 | issues exactly what policy permits and the signature allows, from the branch of the key's family, of which there is always one for a classical key; a bootstrap is consumed durably first, only by a permitted request, and stays consumed when signing fails |
| `Enrollment.PermittedEntryWellFormed` | ca/enroll/server.go:109 | an identity the pattern permits makes a ledger line that reads back |
| `Enrollment.IssuanceTree` | ca/enroll/server.go:228-347 | every certificate of any run has a lifetime within the bounds, ends by the NotAfter of its own family's branch, and descends from one bootstrap with the same common name whose DNS names contain its own |
| `Enrollment.SingleEnrollment` | ca/enroll/server.go:298-304 | in any run with crashes no two certificates were enrolled with one bootstrap credential, as long as no ledger entry goes onto a remnant that hides it |
| `Enrollment.EnrolledTwiceIff` | ca/enroll/server.go:298-304 | in any world, an unused permitted bootstrap can be enrolled, and after a restart again, if and only if its ledger entry goes onto such a remnant |

## Left out

- Cryptography itself (ML-DSA, ML-KEM, AES-GCM, HKDF, SHA-256) and X.509 chain building: ideal, as listed above.
- JOSE and JSON parsing, key sets, introspection calls, and the issuer, audience and time checks of a token: a request arrives with the outcome (`None` where the source refuses). The required scope and role are modelled in `Shim`, where claims are carried over, and are a flag in `Validator`; `strings.Fields` is a parameter.
- URL normalisation: htu values are compared after it; the functions of `Ingress.Environment` stand for it.
- HTTP, TLS, sockets, deadlines, contexts, mutexes, logging, counters and error texts: methods are atomic where the source holds its lock, and a failed deadline call is a failed step.
- Go's wrap-around of `time.Time` at its extremes: times and durations are unbounded integers.
- The bytes of JSON messages: `Sidecar.Forward` and `Sidecar.Accept` take the encoding of a frame and of a reply as given.
- The copying loops of `relay`: their writes, reads and half-closes are the events of module `Tunnel`, each one atomic, with short writes to the application.
- Writing credentials to disk, private keys, and the enroller's comparison of key and certificate: a reply is a credential or none.
- The nonces a DPoP client remembers per origin: an answered demand is one more request.
- A `PQ_ISSUER=keycloak` client without an ML-DSA proof key: `New` always makes one in that mode.
- The name in a newly created ledger's directory is taken to be durable with the first sync.
- Ledger.ConsumedOnce: is about runs in which no entry goes onto a line cut short; the source does not ensure it, and `Ledger.ConsumedTwiceIff` says that nothing less will do.
- Stream.StreamSafety: is about runs of fewer than 2^64 records in which no Write follows a failed one; the source does not enforce either, and `Stream.RetrySafeIff` says what happens without the second.
- Maintenance.SpacedByMarginIff: is about configurations whose certificates never expire at a tick, since a renewal of an expired certificate fails.
- Enrollment.SingleEnrollment: is about the same runs as `Ledger.ConsumedOnce`, with `Enrollment.EnrolledTwiceIff` for the others.
- Endpoints that only report (CA chain, JWKS, introspection of upgraded tokens, health), command-line tools, benchmarks, deployment files.
