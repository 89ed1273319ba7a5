# nockup-prover HTTP front end, modelled in Dafny

The prover is a NockApp: a compiled Hoon kernel keeps the SNARK submission
records, and a Rust HTTP server (`prover/src/main.rs`) turns each request
into a *cause* noun, pokes it into the kernel, and answers over HTTP. The
kernel is not part of this model. What is modelled is the pure core of the
Rust front end:

- `string_to_cord`, the packer that turns a string into one atom, and
  `string_list_to_noun`, which turns a list of strings into a Hoon list
  (`cords.dfy`);
- the validation cascade at the top of `submit_snark` (`validation.dfy`);
- the cause each handler builds: the submit 7-tuple, the `[tag id]` pairs of
  get and delete, and the bare list tag (`causes.dfy`);
- the four handlers from request to response, with the kernel as a
  parameter (`handlers.dfy`).

`nouns.dfy` holds the `Noun` datatype (`Atom(nat) | Cell(Noun, Noun)`), the
tuple builder `T` (right-nested cells) with its inverse `Untuple`, and Hoon
lists with their inverse `DecodeList`. `responses.dfy` holds the status codes
and the three JSON body shapes. A Rust `String` is modelled by its UTF-8
bytes, `seq<byte>` with `byte = b: nat | b < 256`.

`string_to_cord` is modelled exactly as written. It keeps a `u128`
accumulator, shifts it left by 8 and ors in each of the first 16 bytes, then
casts to `u64`. The shift on a `u128` drops the top byte, which the model
writes as `(acc % 2^120) * 256 + b`; the low byte of the shifted value is
zero, so `|` is `+`. The packing is big-endian, not Hoon's
least-significant-first cord layout. `Cords.CordIsKeptValue` shows what the
cast leaves: the big-endian value of the last (up to) eight bytes among the
first sixteen. So any string longer than eight bytes loses its leading bytes
(`Cords.NineByteCollision`). The source marks the function as simplified,
so this is recorded as a property and not as a defect.

The atoms `D(b"submit-snark")`, `D(b"get-snark")`, `D(b"list-snarks")`,
`D(b"delete-snark")` and `D(proof_system)` come from the nockapp library and
are opaque here: they are the fields of a `Causes.Tags` value, and the
properties about decoding causes assume only that the four tag atoms differ.
`base64::decode(..).is_ok()` is the parameter `validB64`, and `app.poke` is
the parameter `kernel: Noun -> PokeResult`.

`parse_http_response` is a stub that returns `None`. So every successful
poke ends in the handler's fallback response:

- a successful submission answers 201 with a message and no id;
- a successful lookup answers 500 "Invalid response from kernel"
  (`Handlers.GetNeverOk`);
- a successful listing answers 200 with an empty list and total 0.

## Model

| member | source | states |
|---|---|---|
| Nouns.Tuple | prover/src/main.rs:134-142 | the `T` builder: the result is a cell headed by the first item (its full right-nested shape is `Nouns.TupleRoundTrip`) |
| Nouns.TupleRoundTrip | prover/src/main.rs:134-142 | a right-nested tuple of n >= 2 items reads back as exactly those n items in order |
| Nouns.UntupleSound | prover/src/main.rs:134-142 | any noun that reads back as an n-tuple is the tuple of those items, so the tuple encoding has no other shapes |
| Nouns.ListRoundTrip | prover/src/main.rs:270-276 | a null-terminated cons list decodes to exactly its items, in order |
| Nouns.DecodeListSound | prover/src/main.rs:270-276 | any noun that decodes as a list is the cons list of those items |
| Cords.BigEndian | prover/src/main.rs:257-261 | the big-endian value of n bytes is below 256^n |
| Cords.ShiftIn | prover/src/main.rs:260 | one `(result << 8) \| byte` step keeps the accumulator inside `u128` |
| Cords.PackU128 | prover/src/main.rs:258-261 | the `u128` accumulator loop: the accumulator stays inside `u128` after any step |
| Cords.Prefix | prover/src/main.rs:259 | `take(16)`: the leading min(n, 16) bytes of the string |
| Cords.PackU128Exact | prover/src/main.rs:258-261 | over at most 16 bytes the `u128` loop never overflows: it appends the bytes as low base-256 digits of the accumulator |
| Cords.StringToCord | prover/src/main.rs:252-263 | the cord is always an atom strictly below 2^64 (the `as u64` cast) |
| Cords.CordIsKeptValue | prover/src/main.rs:252-263 | the cord is the big-endian value of the last (up to) 8 of the first 16 bytes; the empty string is atom 0 |
| Cords.OnlyPrefixMatters | prover/src/main.rs:259 | strings that agree on their first 16 bytes give the same cord |
| Cords.OnlyKeptBytesMatter | prover/src/main.rs:259-262 | strings whose last 8 of the first 16 bytes agree give the same cord, whatever their other bytes |
| Cords.NineByteCollision | prover/src/main.rs:262 | two different 9-byte strings give the same cord: the encoding is lossy beyond 8 bytes |
| Cords.ShortCordIsBigEndian | prover/src/main.rs:258-262 | a string of at most 8 bytes gives exactly its big-endian value `fold(acc*256 + b)` |
| Cords.ShortCordInjective | prover/src/main.rs:258-262 | distinct strings of at most 8 bytes with no leading zero byte give distinct cords |
| Cords.BigEndianInjective | prover/src/main.rs:258-261 | byte strings of equal length with equal big-endian value are equal |
| Cords.ConsFromRight | prover/src/main.rs:271-275 | the right-to-left loop: on no strings the list is unchanged; otherwise the first string's cord ends at the head |
| Cords.ConsFromRightPrepends | prover/src/main.rs:270-275 | consing the cords onto a list from the last string to the first prepends them in their original order |
| Cords.StringListToNoun | prover/src/main.rs:266-277 | the result is the null-terminated list of the strings' cords in order; the empty list is atom 0 |
| Cords.StringListShape | prover/src/main.rs:266-277 | the list decodes to one item per string, same length and order, the i-th head being the cord of the i-th string |
| Validation.Validate | prover/src/main.rs:102-119 | the submission passes iff all five checks hold; otherwise the response is a 400 naming a failing check all of whose predecessors hold |
| Validation.FirstFailureDecides | prover/src/main.rs:102-119 | first failure wins: when check i fails and all earlier checks hold, its message is the response, whatever the later fields hold |
| Validation.EmptyProofFirst | prover/src/main.rs:103-105 | an empty proof gives 400 "Proof data is required" whatever the other fields hold |
| Validation.MessagesDistinct | prover/src/main.rs:104-118 | each check has its own message, so a rejection names exactly one check |
| Causes.NotesCord | prover/src/main.rs:132 | absent notes are encoded as the empty cord, atom 0; present notes as their cord |
| Causes.SubmitPayload | prover/src/main.rs:127-132 | six fields in the order `proof inputs vk system submitter notes`: the proof's cord, the list of input cords, the key's cord, the proof-system atom, the submitter's cord, the notes' cord (atom 0 when absent); every string field is an atom below 2^64 |
| Causes.SubmitCause | prover/src/main.rs:124-143 | the submit cause is a 7-tuple headed by the submit tag, followed by the six payload fields |
| Causes.GetCause | prover/src/main.rs:170-174 | the get cause is exactly the pair of the get tag and the id |
| Causes.ListCause | prover/src/main.rs:196-197 | the list cause is the bare list-tag atom |
| Causes.DeleteCause | prover/src/main.rs:223-227 | the delete cause is exactly the pair of the delete tag and the id |
| Causes.CauseRoundTrip | prover/src/main.rs:124-227 | with distinct tags every cause reads back as its request kind, the id of a get or delete, or the submit payload, and nothing else |
| Causes.CauseDeterminesRequest | prover/src/main.rs:170-227 | a get, list or delete request is determined by its cause noun |
| Handlers.FirstResponse | prover/src/main.rs:150-154 | the result is the parse of the first effect that parses, and none exactly when no effect parses |
| Handlers.ParseHttpResponse | prover/src/main.rs:280-284 | the stub effect parser recognises no effect |
| Handlers.AfterPoke | prover/src/main.rs:147-162 | after a poke: `onError` when it fails; the fallback when no effect parses; otherwise the parse of the first effect that parses (the same block recurs at lines 178-191, 201-215 and 231-244) |
| Handlers.AfterPokeIsFallback | prover/src/main.rs:279-284 | since the effect parser recognises nothing, a successful poke always ends in the handler's fallback |
| Handlers.SubmitSnark | prover/src/main.rs:98-163 | nothing is sent iff validation fails, and then the response is the 400 of the first failing check; otherwise the submit cause is sent and the answer is 201 or, when the poke fails, 500 |
| Handlers.GetSnark | prover/src/main.rs:166-192 | sends the get cause; 404 when the poke fails, else 500 "Invalid response from kernel" |
| Handlers.ListSnarks | prover/src/main.rs:195-216 | sends the bare list tag; 500 when the poke fails, else 200 with an empty list |
| Handlers.DeleteSnark | prover/src/main.rs:219-245 | sends the delete cause; 404 when the poke fails, else 200 "SNARK deleted" |
| Handlers.Handle | prover/src/main.rs:344-349 | the router: each request is answered by its own handler; get, list and delete always send their request's cause; a submission sends its cause iff validation passes |
| Handlers.ResponseIgnoresEffects | prover/src/main.rs:146-162 | the exchange depends on the kernel only through whether the poke failed, and every response status is one of 200, 201, 400, 404, 500 |
| Handlers.GetNeverOk | prover/src/main.rs:179-185 | a lookup never answers 200 |

## Left out

- The axum router, the async handlers, the `RwLock` around the app, TCP binding and static file serving (prover/src/main.rs:311-363): I/O and concurrency. `Handlers.Handle` stands for the routing table.
- Kernel loading, boot and the `%init` poke (prover/src/main.rs:318-338): foreign runtime calls whose behaviour is not in this source.
- What the kernel does with a cause: the Hoon kernel (record store, dispatch) is not part of this model; `app.poke` is the parameter `kernel`.
- `base64::decode`: a library call, modelled as the parameter predicate `validB64`.
- The JSON decoding of the request body and of the `:id` path segment, with axum's own rejections of malformed input: library behaviour. The model starts from a decoded `Submission` and a `u64` id.
- The numeric values of the tag atoms and of `D(proof_system)`, and any range limit of the library's `D` on the atoms it builds: library behaviour. They are the opaque `Tags` fields, and an id or cord is taken to become the atom of the same value.
- JSON serialisation by `success_response`, `error_response` and serde: the model keeps the body as a `Body` value, not as text.
- The `log::error!` lines: logging has no effect on the response.
- `Nouns.Tuple` requires at least two items: every call of `T` in this source passes two or seven.
