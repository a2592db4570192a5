# API management gateway: verified model

A Dafny model of the stateful and text-handling core of the gateway, with proofs about whole runs.

| File | Models |
|---|---|
| `TokenBucket.dfy` | the rate limiter's Lua script for one key, on exact reals and on integers |
| `SlidingWindow.dfy` | what the script guarantees over runs, stated by a sliding-window rule that mentions no bucket |
| `RateLimitStore.dfy` | the shared store: many keys, expiry on the server's clock, background reaping |
| `RateLimitHandler.dfy` | the HTTP middleware: identifiers, headers, fail-open, Retry-After |
| `Encodings.dfy`, `Clock.dfy`, `Sequences.dfy` | hex, base64 and base64url, signed decimals, splitting at a character; nanosecond time; the ends of a sequence |
| `Transfer.dfy` | the signed bytes of a transfer, signature decoding, the check against one key |
| `InternalJwt.dfy` | the internal token |
| `EnclaveKeys.dfy`, `Banking.dfy`, `Ledger.dfy` | the key table, the banking service, and registrations, revocations and executions interleaved statement by statement |
| `AuthSessions.dfy`, `AuthService.dfy`, `SessionProtocol.dfy` | the session table, the sign-in service, and its flows interleaved with the sweep statement by statement |
| `SessionUse.dfy` | how often a session can be used in such interleavings |
| `Indexer.dfy` | the directory drawing and the file walk |

Code that updates state in place is a class or a loop proved against a function or relation on
values; theorems are lemmas about those. Interleavings are sequences of atomic statements.
Randomness, clocks, database faults, hashing, MACs, ECDSA and the JSON codec are parameters, and
each lemma asks of them only what its proof needs. Go strings are texts of single-byte characters.

Where the code and its documents differ, the model follows the code:

- `X-RateLimit-Remaining` carries thousandths of a token, although the user documentation calls it
  an allowance; `RemainingIsExact` says what the number means.
- `Retry-After` is the period rounded down to whole seconds; `RetryAfterSuffices` says exactly when
  observing it is enough, `RetryAfterTooShort` gives a period for which it is not.
- The sign-in session is called single-use; read and delete are separate statements and the
  delete's error is ignored, so two overlapping callbacks can both exchange (`DoubleExchange`).
  `ExchangedTwiceExactly` says exactly when that can still happen, `SingleUse` and
  `ExchangesBounded` what holds in every run.
- The signed bytes join the fields with colons. The schema guard, mounted in front of both services
  (`internal/banking/handler/banking_handler.go:69` and `:91`), asks for accounts of six bytes or
  more and a currency of three (`internal/adapters/handler/schema_middleware.go:97-125`) but lets
  colons into accounts, so bytes can belong to two orders it lets in (`CanonicalCollides`);
  `PartiesAreNamedExactly` says for which orders they do not.
- A backend error does not mean that the script did not run: its reply may be lost or unreadable, and
  then a token is spent and the request forwarded all the same (`ForwardedBalance`).
- Trying hex before base64 misreads a base64 signature made of hex digits alone (`MisreadSignature`);
  `Base64SignatureReadExactly` gives the exact condition.
- A token is accepted through the second named in `exp`, one second longer than section 4.1.4 of
  RFC 7519 allows.
- The file walk drops ignored names whatever they are, the drawing only regular files
  (`DrawingAndWalkAgree`, `StrayIsDrawnOnly`).

## Model

| member | source | states |
|---|---|---|
| TokenBucket.ScriptIsScaled | internal/adapters/handler/rate_limiter.go:47-69 | the script on real tokens and an integer bucket counted in 1/period of a token give the same reply and the same store, on every stored bucket and clock reading |
| TokenBucket.RunIsScaled | internal/adapters/handler/rate_limiter.go:43-69 | the same for whole runs with clock readings in any order |
| TokenBucket.BurstServed | internal/adapters/handler/rate_limiter.go:61-69 | request n of a burst with one clock reading is admitted exactly if n + 1 tokens were available when it began |
| TokenBucket.RemainingIsExact | internal/adapters/handler/rate_limiter.go:66-68 | after a reply with second element m, exactly m / 1000 further requests with the same reading are admitted and the next is denied |
| SlidingWindow.LevelIsLeastSlack | internal/adapters/handler/rate_limiter.go:51-63 | the level of a bucket serving any selection is the minimum, over all windows ending there, of what the window leaves |
| SlidingWindow.DecisionIsWindowRule | internal/adapters/handler/rate_limiter.go:47-69 | with a clock that does not go back, a request is admitted if and only if every window ending at it has room, counting the earlier admissions |
| SlidingWindow.DecisionsConform | internal/adapters/handler/rate_limiter.go:47-69 | no window of any length holds more admissions than capacity + rate * length / period |
| SlidingWindow.GreedyIsOptimal | internal/adapters/handler/rate_limiter.go:47-69 | on every prefix the script admits at least as many requests as any selection obeying that window rule |
| SlidingWindow.SolventExactly | internal/adapters/handler/rate_limiter.go:47-69 | with a clock that does not go back, the selections that obey the window rule are exactly those that a bucket of the same capacity and rate can serve without going negative |
| SlidingWindow.GreedyBeatsAnyBucket | internal/adapters/handler/rate_limiter.go:47-69 | so on every prefix the script admits at least as many requests as any such selection |
| SlidingWindow.MoreGenerousAdmitsMore | internal/adapters/handler/rate_limiter.go:47-69 | a larger capacity or a faster refill never lowers the number admitted on any prefix |
| SlidingWindow.SingleDecisionMayFlip | internal/adapters/handler/rate_limiter.go:47-69 | yet a single verdict can turn from admission to denial when the rate is doubled |
| SlidingWindow.OnlyTheLeaderIsDenied | internal/adapters/handler/rate_limiter.go:47-69 | but only where the more generous bucket has already admitted strictly more |
| SlidingWindow.StoredTokensClosedForm | internal/adapters/handler/rate_limiter.go:51-63 | the tokens an admission stores are the minimum over earlier i of capacity + rate * (t_j - t_i) / period less the admissions since i, stamped with its own reading |
| SlidingWindow.FullyAdmitted | internal/adapters/handler/rate_limiter.go:51-63 | a sequence is admitted in full if and only if every window i..j has at most capacity + rate * (t_j - t_i) / period requests |
| SlidingWindow.TokensAreConserved | internal/adapters/handler/rate_limiter.go:51-63 | with readings in any order, between any two moments admissions plus stored tokens are covered by the tokens before and the advance of last_update, which never moves back |
| SlidingWindow.AdmissionBound | internal/adapters/handler/rate_limiter.go:47-63 | with readings in any order, admissions + stored tokens are at most capacity + rate * (last_update - first reading) / period |
| SlidingWindow.WaitSufficesExactly | internal/adapters/handler/rate_limiter.go:51-69 | a wait after a denial is enough on every run if and only if one token is refilled in it |
| RateLimitStore.ValkeyServer.Eval | internal/adapters/handler/rate_limiter.go:36-69 | the script's statements change the table and answer as one evaluation of the value model, including the TTL written on admission and nothing written on denial |
| RateLimitStore.TtlIsTwiceTheFillTime | internal/adapters/handler/rate_limiter.go:64-65 | the TTL is the least whole number of seconds not below twice the time an empty bucket takes to fill |
| RateLimitStore.ClientsAreIsolated | internal/adapters/handler/rate_limiter.go:43-69 | in any interleaved run with expiry and reaping, a key's replies are those of its own requests alone |
| RateLimitStore.InvisibleExactly | internal/adapters/handler/rate_limiter.go:43-66 | with clocks within a skew of the server's, dropping rows kept for any given time gives every client the replies of a bucket that is never dropped, on every run, if and only if a bucket fills in that time (plus one ms) less twice the skew |
| RateLimitStore.ScriptExpiryInvisible | internal/adapters/handler/rate_limiter.go:63-66 | the same for the script's own TTL, and so for every skew whose double costs no more than half the TTL |
| RateLimitStore.ClientAdmissionBound | internal/adapters/handler/rate_limiter.go:43-69 | over any run of the shared store with such clocks, a client's admissions are at most capacity plus the refill of the elapsed server time and twice the skew |
| RateLimitHandler.RateLimiterMiddleware.Handle | internal/adapters/handler/rate_limiter.go:154-178 | a backend error forwards with the response untouched; an answer sets the two telemetry headers to the capacity and to the reply's number, and a denial also Retry-After, the content type and 429, without forwarding; no other header changes |
| RateLimitHandler.ForwardedBound | internal/adapters/handler/rate_limiter.go:86-178 | forwarded requests of a client and admissions whose reply was lost are together at most capacity + refill over the advance of its bucket's clock + backend errors, for any clocks, whether an errored request reached the script or not |
| RateLimitHandler.ForwardedBalance | internal/adapters/handler/rate_limiter.go:86-178 | forwarded requests exceed the script's admissions by exactly the backend errors that spent no token |
| RateLimitHandler.ClientForwardBound | internal/adapters/handler/rate_limiter.go:43-178 | the same bound over any run of the shared store, with the refill of the elapsed server time and twice the skew; a client that never reaches the script is forwarded once per error |
| RateLimitHandler.IdentifierIs | internal/adapters/handler/rate_limiter.go:182-203 | a request is identified by its authenticated user; without one by the first hop of X-Forwarded-For, up to its first comma, trimmed; without that by the peer's host, or its whole address if that has no host part |
| RateLimitHandler.KeyNamesHash | internal/adapters/handler/rate_limiter.go:141-143 | the store key is the fixed prefix and the hash of the identifier, which can be read back from it |
| RateLimitHandler.BucketsSeparateClients | internal/adapters/handler/rate_limiter.go:141-203 | unless different identifiers hash alike, two requests share a bucket if and only if they come from the same authenticated user or, both unauthenticated, from the same address |
| RateLimitHandler.RetryAfterSuffices | internal/adapters/handler/rate_limiter.go:150-167 | observing Retry-After is always enough if and only if one token is refilled in that many seconds; so for whole-second periods, and for periods of at least a second with rate 2 or more |
| RateLimitHandler.RetryAfterTooShort | internal/adapters/handler/rate_limiter.go:167 | it is not enough for one token per 1.5 seconds |
| Hex.DecodeAccepts | internal/banking/adapters/crypto/signature.go:72-73 | hex reading accepts exactly the even-length texts of hex digits and gives half as many bytes |
| Hex.EncodeAt | internal/banking/adapters/crypto/signature.go:72-73 | hex text has the two lower-case digits of each byte in its place, the high half first |
| Hex.RoundTrip | internal/banking/adapters/crypto/signature.go:72-73 | hex text of any bytes reads back as them |
| Base64.RoundTrip | internal/banking/adapters/crypto/signature.go:75 | base64 text of any bytes reads back as them, in both alphabets, padded or raw |
| Base64.PiecesAreBigEndian | internal/banking/adapters/crypto/signature.go:75 | the digits of a group read from the left are the 24-bit number its three bytes are; one or two bytes are filled up with zero bits |
| Base64.DigitsAreLetters | internal/banking/adapters/crypto/signature.go:75 | digit n is written and read as letter n of the alphabet of section 4 or 5 of RFC 4648 |
| Base64.DecodeAccepts | internal/banking/adapters/crypto/signature.go:75 | what base64 reading accepts, line breaks aside: whole groups of digits, of which the last may end in one or two = if padded, or be cut to two or three digits if raw |
| Base64.UrlTextHasNoDot | internal/banking/adapters/crypto/jwt.go:51-60 | base64url text has no dot, so dots can separate the parts of a token |
| Decimal.RoundTrip | internal/banking/adapters/crypto/signature.go:22-28 | a printed signed number parses back |
| Decimal.PrintIsPlain | internal/banking/adapters/crypto/signature.go:22-28 | a sign exactly if negative, and a leading zero only for zero |
| Splitting.SplitExactly | internal/banking/adapters/crypto/jwt.go:73-78 | a split gives exactly the separator-free pieces that join to the text |
| Clock.UnixIsItsSecond | internal/banking/adapters/crypto/signature.go:27 | the Unix time of an instant is s if and only if the instant lies in the second that begins s seconds after the epoch |
| Transfer.CanonicalReads | internal/banking/adapters/crypto/signature.go:21-29 | the bytes are sender, receiver, amount, currency and second in this order, joined by colons, where the two numbers parse back to the amount and to the second the stamp lies in |
| Transfer.CanonicalDetermines | internal/banking/adapters/crypto/signature.go:21-29 | with currencies of one length, three bytes by the schema guard, canonical bytes are equal if and only if amount, currency, sender:receiver, and the second of the stamp are |
| Transfer.CanonicalIsInjective | internal/banking/adapters/crypto/signature.go:21-29 | with colon-free senders too, they are equal if and only if all five fields are |
| Transfer.PartiesAreNamedExactly | internal/adapters/handler/schema_middleware.go:97-125 | among the orders the schema guard lets in, an order's bytes fix its sender and its receiver if and only if no colon but the joining one leaves at least six characters on either side of it |
| Transfer.CanonicalCollides | internal/banking/adapters/crypto/signature.go:21-29 | two orders with different parties that the guard lets in have the same bytes; without its three-byte currency, so have two with different amounts and currencies |
| Transfer.HexSignatureRead | internal/banking/adapters/crypto/signature.go:72-79 | a hex signature always reads back |
| Transfer.Base64SignatureReadExactly | internal/banking/adapters/crypto/signature.go:72-79 | a base64 signature reads back if and only if its text has a character that is no hex digit |
| Transfer.UsualSignatureRead | internal/banking/adapters/crypto/signature.go:72-79 | so every base64 signature of 64 bytes, and every one starting with the DER tag 0x30, reads back |
| Transfer.MisreadSignature | internal/banking/adapters/crypto/signature.go:72-79 | AAAA, base64 of three zero bytes, is read as two bytes 0xAA |
| Transfer.AcceptedExactly | internal/banking/adapters/crypto/signature.go:35-109 | a signature is accepted if and only if key and signature can be read and the library says yes for the hash of the canonical bytes: to the DER signature, unless 64 bytes long, or to the numbers R and S it stands for |
| Transfer.AcceptanceRestsOnLibrary | internal/banking/adapters/crypto/signature.go:81-106 | so behind every acceptance is a yes of the library for the parsed key, the canonical bytes, and what was read |
| Transfer.NumberIsBigEndian | internal/banking/adapters/crypto/signature.go:85-88 | R and S are the big-endian numbers of their bytes |
| Transfer.RefusedBecause | internal/banking/adapters/crypto/signature.go:36-79 | otherwise the first thing wrong is the error |
| Transfer.GenuineSignatureAccepted | internal/banking/adapters/crypto/signature.go:35-109 | a genuine raw signature, in hex or base64, is accepted; a genuine DER one is if and only if it is not 64 bytes long or those bytes verify as R, S too |
| InternalJwt.VerifyExactly | internal/banking/adapters/crypto/jwt.go:68-105 | the strings accepted are exactly h.c.s with dot-free h and c, s the base64url MAC of h.c, c decoding to claims, through the last nanosecond of the second they name, and those claims are returned |
| InternalJwt.ExpiredExactly | internal/banking/adapters/crypto/jwt.go:100-102 | after that second exactly those strings are refused as expired |
| InternalJwt.FormatRefused | internal/banking/adapters/crypto/jwt.go:69-76 | refused for their form are exactly the strings that are not three dot-free parts |
| InternalJwt.RefusedBecause | internal/banking/adapters/crypto/jwt.go:78-98 | for the others the first thing wrong is the error: the MAC, the text of the claims, the claims |
| InternalJwt.MintedTokenIs | internal/banking/adapters/crypto/jwt.go:25-63 | a minted token is header, claims and MAC in base64url; the claims name the subject, the scopes, the second of minting and the second the lifetime ends in |
| InternalJwt.MintedTokenVerifies | internal/banking/adapters/crypto/jwt.go:25-105 | it yields its own claims through the last nanosecond of the second its lifetime ends in, and is refused as expired from then on |
| EnclaveKeys.EnclaveKeyRepository.SaveKey | internal/banking/repository/sql_key_repository.go:34-50 | inserts a row unless its id is taken or the database faults, and changes nothing else |
| EnclaveKeys.EnclaveKeyRepository.GetKeysByUserID | internal/banking/repository/sql_key_repository.go:77-92 | lists exactly the user's rows, each once, newest first |
| EnclaveKeys.EnclaveKeyRepository.DeleteKey | internal/banking/repository/sql_key_repository.go:97-114 | removes the row of an id and nothing else, and reports a missing one |
| Banking.BankingService.RegisterDeviceKey | internal/banking/services/banking_service.go:71-90 | stores the key under the caller's id if and only if attestation passes, the id is free and the database does not fault |
| Banking.BankingService.ExecuteIntranetTransfer | internal/banking/services/banking_service.go:167-222 | the outcome depends on the table, not on the order of scopes or keys: success exactly if the token verifies, has the scope, and some key of its subject verifies the payload; otherwise the first failing check is the error |
| Banking.BankingService.ExecutePrivateTransfer | internal/banking/handler/banking_handler.go:177-203 | the same behind the Bearer prefix and the decoded body |
| Banking.SwapsExactly | internal/banking/services/banking_service.go:106-117 | the edge forwards an order if and only if the amount is positive, neither account is empty and there is a secret; the first failing check is the error |
| Banking.SwapForwards | internal/banking/services/banking_service.go:113-132 | what it forwards is the order itself, under a Bearer token for that user, the one scope transfer:execute, and one minute |
| Banking.EdgeToLedger | internal/banking/services/banking_service.go:96-222 | an order the edge forwards is executed, through the end of the second a minute after minting, exactly if a key of that user verifies it, and refused as expired afterwards |
| Banking.GenuineOrderExecuted | internal/banking/services/banking_service.go:96-222 | in particular an order genuinely signed by a registered key, raw or in DER of any length but 64 bytes, in hex or base64, is executed |
| Ledger.WholeRegistration | internal/banking/services/banking_service.go:71-90 | a registration's two interleavable statements, taken together, do to the table what the method does, database faults included |
| Ledger.WholeExecution | internal/banking/services/banking_service.go:167-222 | the three interleavable statements of an execution, taken together, finalise exactly when the service method succeeds, whether or not the key lookup faults |
| Ledger.RowWasAttested | internal/banking/services/banking_service.go:71-90 | in every reachable state, every key in the table passed attestation, just as it stands there, in the call that stored it |
| Ledger.FinalisedHasEvidence | internal/banking/services/banking_service.go:71-222 | in every interleaving, behind each finalised transfer are, in order: a passed attestation, the storing of that key by the same call, and its listing from the table of that moment for an accepted token with the scope whose subject owns it; and the key verifies the payload |
| Ledger.RowsAreImmutable | internal/banking/repository/sql_key_repository.go:34-50 | no statement changes a stored key, in particular its owner |
| Ledger.FinalisedWasSigned | internal/banking/services/banking_service.go:167-222 | if the library says yes only to what devices signed, an attested device of the token's subject signed the bytes of every finalised order as those of an order of its own; if the currencies are equally long, that order has the same amount, currency, sender:receiver and second; and it has the same sender and receiver if the finalised ones hold no colon or, the guard letting both orders in, no second colon with six characters on either side |
| AuthSessions.SQLSessionRepository.Save | internal/adapters/repository/sql_session_repository.go:36-48 | inserts the row unless its id or its state is taken or the database faults |
| AuthSessions.SQLSessionRepository.Delete | internal/adapters/repository/sql_session_repository.go:75-92 | removes the row of an id and nothing else, and reports a missing one |
| AuthSessions.SQLSessionRepository.DeleteExpired | internal/adapters/repository/sql_session_repository.go:97-115 | removes exactly the rows that IsExpired says are expired |
| AuthSessions.VerifierIsWellFormed | internal/adapters/crypto/pkce.go:24-30 | 32 random bytes make a 43-character verifier of unreserved characters that reads back as them |
| AuthSessions.ChallengeIsS256 | internal/adapters/crypto/pkce.go:35-38 | the challenge reads back as the hash of the verifier, and for a 32-byte hash is 43 unreserved characters |
| AuthService.Service.InitiateAuth | internal/core/services/auth_service.go:38-76 | stores a session of two base64url random texts and five minutes to live, and asks for the URL with the S256 challenge of its verifier, the same id, state and redirect; a failed save asks for nothing |
| AuthService.Service.HandleCallback | internal/core/services/auth_service.go:81-110 | the row is deleted before any check, and the code is exchanged with the stored verifier exactly if the session was found, is unexpired and has the presented state |
| SessionProtocol.WholeInitiation | internal/core/services/auth_service.go:49-69 | a flow's two interleavable statements, taken together, do what the method does, and ask for one URL |
| SessionProtocol.WholeCallback | internal/core/services/auth_service.go:82-98 | a callback's three interleavable statements, taken together, do what the method does, whichever of its statements fault |
| SessionUse.ExchangesBounded | internal/core/services/auth_service.go:82-98 | in every interleaving, with deletes that may fail, an id is exchanged only by callbacks that read it before the first successful delete, each at most once |
| SessionUse.SingleUse | internal/core/services/auth_service.go:82-98 | with callbacks run whole and deletes that succeed, no id is exchanged twice |
| SessionUse.ExchangedTwiceExactly | internal/core/services/auth_service.go:82-98 | after any run, some continuation whose clocks read a given time or later exchanges an id twice in all if and only if the id is yet to be saved, or its row is there unexpired, or the callbacks that have exchanged it and those in flight with the right state and an unexpired session are two or more |
| SessionUse.DoubleExchangeExactly | internal/core/services/auth_service.go:82-98 | the same with clocks left free, for an id already saved: its row is there, or two callbacks have exchanged it or are in flight with the right state |
| SessionUse.DoubleExchange | internal/core/services/auth_service.go:82-98 | two overlapping callbacks, or one failed delete, exchange an id twice |
| SessionProtocol.SweepIsInvisible | internal/adapters/repository/sql_session_repository.go:97-105 | sweeps at any points of a run leave its code exchanges the same, in number, order and content |
| SessionProtocol.ChallengeBinding | internal/core/services/auth_service.go:49-98 | each exchange redeems, with its own state and verifier and before it expires, the session created by exactly one earlier InitiateAuth call; every authorization URL requested for that id was requested by that same call, later, with the same state and the S256 challenge of that verifier, which reads back as its hash, and there is such a request unless the call has yet to make it |
| Indexer.BuildTree | tools/indexer.py:12-41 | the sorting, filtering and drawing loops produce the rendering of the shown tree |
| Indexer.SortIsStable | tools/indexer.py:16 | directories come first, then by lower-cased name, and entries that compare equal keep their order |
| Indexer.SortedListing | tools/indexer.py:16 | in a sorted listing no directory follows a file, and within each kind no lower-cased name follows a greater one |
| Indexer.TextLessExactly | tools/indexer.py:16 | names are compared by the first character in which they differ, a proper prefix being less |
| Indexer.RenderShape | tools/indexer.py:29-39 | an item's line is prefix, connector, name and the slash of a directory; what is below it is indented by four blanks under a last item and by a bar otherwise |
| Indexer.DrawingDeterminesTree | tools/indexer.py:29-41 | for slash-free names, the drawn lines read back as the shown tree, in order and in place |
| Indexer.GetFileList | tools/indexer.py:43-72 | the walk's loop over an agenda of directories lists what the recursive walk lists, in the same order |
| Indexer.OwnFilesComeFirst | tools/indexer.py:46-54 | the walk of a directory starts with the paths of its own files that are not ignored, in the order of their names, each once |
| Indexer.DirectoriesInTurn | tools/indexer.py:46-48 | and goes on below its directories that are not ignored, in the order in which they were read |
| Indexer.NamesAreSorted | tools/indexer.py:50 | file names come out in order, each as often as it came in |
| Indexer.DrawingAndWalkAgree | tools/indexer.py:12-72 | the drawing shows the walk's files, each once, and besides them exactly the special entries bearing an ignored file's name; so the two agree if and only if there are none |
| Indexer.StrayIsDrawnOnly | tools/indexer.py:22-26 | a pipe or socket named .DS_Store is drawn but not listed |
| Indexer.CatalogueFromDrawing | tools/indexer.py:12-72 | without such entries, the catalogued paths can be told from the drawn lines alone |

## Left out

- Rounding of numbers inside Valkey and their storage as text: tokens are exact. For the same reason Go's `Duration.Seconds` is exact division.
- Configurations with a capacity, rate or period in milliseconds below one: the script is not meant for them.
- SHA-256, HMAC, ECDSA, PEM, X.509, ASN.1 and JSON: parameters. The codec is asked to read back what it wrote only where a lemma says so.
- Forged and colliding inputs: FinalisedWasSigned assumes of the signature library that it says yes only to what was signed, BucketsSeparateClients that the two identifiers do not collide.
- Once-only execution: nothing in the code records transfer ids, so a finalised transfer can be finalised again.
- The raw-versus-DER choice beyond its length test, which the code makes and GenuineSignatureAccepted follows.
- The circuit breaker, HTTP clients, cookies, routing, tracing, metrics and logging.
- Policy evaluation, the schema guard's other rules, attestation claim checks and the masking of accounts: short decision tables and single functions.
- GetUserInfo, token refresh and revocation: single calls to the identity provider.
- The `created_at` column of a session, which no decision reads, and the truncation of timestamps to microseconds in the database.
- The bit layout of session ids: `generateUUIDv4` is a source of fresh ids.
- RegisterDeviceKey: does not model that the caller's key object is updated even if saving fails, because rows are values here.
- BuildTree: the source's one function is split at its two loops into three methods, and str.lower is a parameter.
- GetFileList: does not model sizes and modification times; os.walk is a loop over an agenda of directories.
- Symlinks, OS errors and the Markdown output of the indexer.
