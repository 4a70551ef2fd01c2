# Reversible PII pseudonymisation engine

This is a Dafny model of the engine behind the PII pseudonymisation service.

- `deidentify` replaces the declared personal fields of a medical document with opaque tokens. Each token has the form `TKN_` followed by 24 base64url characters.
- For each token, it stores the Fernet ciphertext of the original value in a `mappings` table.
- `reidentify` puts the plaintext back.

The model covers three source files:

- the document transform (`app/pseudonymizer.py`);
- the token → ciphertext mapping store (`app/storage.py`);
- the token derivation and key slot (`app/security.py`).

Modules:

- `Wrappers`: `Option` and `Result`.
- `Octets`: bytes, and 32-byte digests.
- `Base64Url`: the URL-safe base64 alphabet of section 5 of RFC 4648. It holds the padded encoder Python's `base64.urlsafe_b64encode` implements, `rstrip("=")`, slicing, and a decoder that serves as the reference proving the encoder lossless.
- `Security`:
  - the token format and `token_for_value`;
  - the keyed primitives, a `Crypto` value whose fields are the HMAC-SHA256, Fernet `encrypt` and Fernet `decrypt` functions;
  - the Fernet round-trip property `CipherRoundTrip`, which the theorems take as a hypothesis;
  - Fernet key generation;
  - the `KeyManager` class, a one-slot state machine for `secret.key`.
- `Storage`:
  - the table as a key-value map, with `InsertIfAbsent` as its specification;
  - the `MappingStore` class, a sequence of rows with unique tokens in insertion order. Its methods are `SaveMapping`, `GetMapping` and `GetMappingFuzzy`; the last two scan the rows with loops.
- `Pseudonymizer`:
  - JSON values and documents;
  - `PII_KEYS_BY_DOC`, `_is_token`, `_pseudo_value` and `_restore_value`;
  - both transforms, each twice: as functions over a table (`Deidentified`, `Reidentified`), and as methods whose loop over the declared keys runs against a `MappingStore`. Each method is proved to compute its function.
- `PseudonymizerProofs`: field scoping, idempotence of `deidentify`, fail-open `reidentify`, the round trip `reidentify(deidentify(d)) == d` and the Lab Report scenario.

Python behaviour modelled as the code has it:

- `dtype in PII_KEYS_BY_DOC` raises `TypeError` when `Document_Type` is a list or dict, but only when `PII` is a dict. This is `UnhashableDocumentType`.
- A stored blob that Fernet rejects, or that is not UTF-8, raises out of `reidentify` and aborts the whole call. This is `InvalidToken`.
- In `get_mapping_fuzzy`, `if exact:` tests truthiness, so an exact match with an empty blob falls through to the case-insensitive scans.

What the code guarantees, and what it does not:

- The round trip does not hold for every document. The code needs four conditions, stated in `RoundTripSafe` and `CipherRoundTrip`:
  - no declared value already starts with `TKN_`;
  - no two declared values share a token;
  - the table holds nothing contrary under their tokens;
  - Fernet decrypts what it encrypted.
- An unhashable `Document_Type` raises `TypeError` (app/pseudonymizer.py:43, 56).

Parameters stand in for I/O and randomness:

- the key file content is the `KeyManager.keyFile` slot;
- `os.urandom(32)` is the `entropy` parameter;
- the IV and timestamp each Fernet encryption draws are the `ivs` supply. The i-th declared key uses `ivs(i)`.

## Model

| member | source | states |
|---|---|---|
| Base64Url.Encode | app/security.py:26 | `urlsafe_b64encode` yields 4·⌈n/3⌉ characters, each from the URL-safe alphabet or `=` |
| Base64Url.StripPadding | app/security.py:26 | `rstrip("=")` returns a prefix with no trailing `=`, and everything it removed was `=` |
| Base64Url.Take | app/security.py:27 | `tok[:24]` is the prefix of length min(24, len) and never fails on a short string |
| Base64Url.DecodeEncode | app/security.py:26 | the encoding of whole 3-byte groups is padding-free and decodes back to the same bytes (the encoding loses nothing) |
| Base64Url.EncodeAppend | app/security.py:26 | encoding splits at group boundaries: Encode(a + b) == Encode(a) + Encode(b) when \|a\| is a multiple of 3 |
| Base64Url.StripPaddingAppend | app/security.py:26 | stripping `=` never reaches into a padding-free prefix |
| Security.TokenFromDigest | app/security.py:26-27 | the token of a 32-byte digest: its padded base64url encoding, `=` stripped, cut to 24 characters, behind `TKN_`; its shape and injectivity on the first 18 bytes are `TokenFromDigestShape` and `TokenFromDigestIff` |
| Security.TokenForValue | app/security.py:24-27 | a token is 28 characters: `TKN_` followed by 24 URL-safe characters, exactly the encoding of the first 18 digest bytes |
| Security.TokenFromDigestShape | app/security.py:26-27 | the truncated, stripped encoding of a 32-byte digest is the encoding of its first 18 bytes |
| Security.StrippedDigestLength | app/security.py:25-26 | a 32-byte digest encodes to 43 characters once `=` is stripped |
| Security.TokenFromDigestIff | app/security.py:25-27 | two digests give the same token if and only if their first 18 bytes agree |
| Security.GeneratedKey | app/security.py:15 | `Fernet.generate_key()` of 32 random bytes is 44 ASCII bytes, byte for byte the padded base64url text of those bytes: 43 URL-safe characters and a final `=` |
| Security.KeyTextShape | app/security.py:15 | the base64url text of 32 bytes is 40 padding-free characters for the first 30 bytes, then three URL-safe digits and one `=` |
| Security.GeneratedKeyInjective | app/security.py:15-16 | two generated keys are equal if and only if their random bytes are, so the key written to `secret.key` keeps all 32 bytes of entropy |
| Security.KeyManager.constructor | app/security.py:13-14 | the key slot starts as the key file's content, or empty when the file does not exist |
| Security.KeyManager.LoadOrCreateKey | app/security.py:12-17 | a filled slot is returned and left unchanged; an empty slot is filled with a generated key, which is returned |
| Security.LoadOrCreateKeyTwice | app/security.py:12-20 | two consecutive loads return the same key, whatever the randomness, and it is the key in the slot |
| Storage.TableOf | app/storage.py:13-15 | the key-value view of the rows has a key exactly when some row has that token |
| Storage.TableOfAt | app/storage.py:14 | with unique tokens, the view maps each row's token to that row's ciphertext |
| Storage.InsertIfAbsent | app/storage.py:26-29 | `INSERT OR IGNORE` adds the token, keeps every earlier entry, and keeps the first ciphertext under a present token |
| Storage.InsertIfAbsentIdempotent | app/storage.py:27 | saving under the same token twice leaves the table as saving once |
| Storage.AsciiLower | app/storage.py:67-76 | `str.lower()` on ASCII text: keeps the length and maps `A`-`Z` to `a`-`z`; what equality of two lowered tokens means is `SameIgnoringCaseIff` |
| Storage.SameIgnoringCaseIff | app/storage.py:67-69 | `cand_token.lower() == token.lower()` holds exactly when the two tokens have the same length and agree at every position up to the case of an ASCII letter |
| Storage.MappingStore.constructor | app/storage.py:11-18 | `CREATE TABLE IF NOT EXISTS` on a new database gives an empty table with unique tokens |
| Storage.MappingStore.SaveMapping | app/storage.py:22-36 | the table becomes InsertIfAbsent of the old table, so a present token is a silent no-op and an absent one appends exactly its row; tokens stay unique |
| Storage.MappingStore.GetMapping | app/storage.py:39-47 | returns None exactly when the token is absent, otherwise the ciphertext stored under exactly that token; the store is not changed |
| Storage.MappingStore.GetMappingFuzzy | app/storage.py:50-81 | returns the exact match when its blob is non-empty; otherwise the first row in scan order whose token matches ignoring ASCII case; None exactly when no row matches; the store is not changed |
| Pseudonymizer.FieldsFor | app/pseudonymizer.py:31-36 | the declared keys exist exactly for the four document types and have no duplicates; a list or dict type is unhashable |
| Pseudonymizer.IsToken | app/pseudonymizer.py:8-9 | `_is_token`: holds exactly for a string whose first four characters are `TKN_`, the prefix `token_for_value` writes; false for every non-string |
| Pseudonymizer.TokensAreRecognised | app/pseudonymizer.py:8-9 | every token `token_for_value` makes is recognised by `_is_token`, so it is never tokenised again |
| Pseudonymizer.Pseudonymized | app/pseudonymizer.py:12-19 | non-strings and tokens come back unchanged with the table untouched; a plaintext becomes its token, which is then in the table, and earlier entries are kept |
| Pseudonymizer.Restored | app/pseudonymizer.py:22-28 | non-strings, non-tokens and unknown tokens come back unchanged; a known token succeeds exactly when its blob decrypts, and then gives the plaintext |
| Pseudonymizer.DeidentifiedFields | app/pseudonymizer.py:44-47 | the fields and the table after the `deidentify` loop has run over the given keys in order: each present non-null declared field goes through `_pseudo_value`, the i-th drawing nonce `ivs(i)`; its outcome field by field is `DeidentifiedFieldsPointwise` |
| Pseudonymizer.ReidentifiedFields | app/pseudonymizer.py:57-60 | the fields after the `reidentify` loop has run over the given keys in order, each present non-null declared field going through `_restore_value`, or the first error raised; its outcome is `ReidentifiedFieldsPointwise` |
| Pseudonymizer.ReidentifiedFieldsFailureSticks | app/pseudonymizer.py:58-60 | once a field raises, the rest of the loop does not run and the call raises that error |
| Pseudonymizer.Deidentified | app/pseudonymizer.py:39-49 | `deidentify(doc)` against a table: a document whose `PII` is not a dict, or whose type is undeclared, comes back as it is; a list or dict type with a dict `PII` raises `TypeError`; otherwise `PII` is replaced by the field loop's result and the table is the one it leaves |
| Pseudonymizer.Reidentified | app/pseudonymizer.py:52-62 | `reidentify(doc)` against a table it only reads: the same pass-through and `TypeError` cases, otherwise `PII` replaced by the field loop's result, or the loop's error |
| Pseudonymizer.PseudoValue | app/pseudonymizer.py:12-19 | the returned value and the new store are those of `Pseudonymized` on the old store |
| Pseudonymizer.RestoreValue | app/pseudonymizer.py:22-28 | the result is `Restored` on the store, which it only reads |
| Pseudonymizer.Deidentify | app/pseudonymizer.py:39-49 | the loop over the declared keys returns the document and leaves the store as `Deidentified` of the old store |
| Pseudonymizer.Reidentify | app/pseudonymizer.py:52-62 | the loop, stopping at the first raise, returns `Reidentified` of the store, which it only reads |
| PseudonymizerProofs.DeidentifiedFieldsPointwise | app/pseudonymizer.py:44-47 | each declared plaintext field becomes its token and every other field is kept; the table keeps its entries, gains each such token, and gains nothing else |
| PseudonymizerProofs.DeidentifiedFieldsNothingToDo | app/pseudonymizer.py:45-47 | with no declared plaintext, the field loop changes neither the fields nor the table |
| PseudonymizerProofs.DeidentifiedFieldsRecoverable | app/pseudonymizer.py:45-47 | if the table's blobs decrypt to their plaintexts for a collision-free set, they still do after the loop |
| PseudonymizerProofs.ReidentifiedFieldsPointwise | app/pseudonymizer.py:57-60 | the loop raises `InvalidToken` exactly when some declared field's restore raises; otherwise each declared field is restored and every other field is kept |
| PseudonymizerProofs.DeidentifyIsScoped | app/pseudonymizer.py:39-49 | raises exactly on an unhashable type with a dict `PII`; top-level keys other than `PII`, undeclared and null fields are untouched; an untransformed document comes back equal with the table unchanged; old entries are kept |
| PseudonymizerProofs.ReidentifyIsScoped | app/pseudonymizer.py:52-62 | the same scoping for `reidentify`, which raises on an unhashable type with a dict `PII` |
| PseudonymizerProofs.DeidentifyTokenisesDeclaredPlaintext | app/pseudonymizer.py:45-48 | each declared plaintext field comes out as the 28-character `TKN_` token of its value, stored in the table, and every new table entry is such a token |
| PseudonymizerProofs.DeidentifyIdempotent | app/pseudonymizer.py:39-49 | deidentifying the output again, with any fresh randomness, returns the same document and writes nothing |
| PseudonymizerProofs.ReidentifyFailOpen | app/pseudonymizer.py:52-62 | if no declared field holds a token the table knows, `reidentify` returns the document unchanged (unless the type is unhashable) |
| PseudonymizerProofs.FieldsRoundTrip | app/pseudonymizer.py:44-47 | the `reidentify` field loop undoes the `deidentify` field loop under the round-trip conditions |
| PseudonymizerProofs.RoundTrip | app/pseudonymizer.py:39-62 | `reidentify(deidentify(d)) == d` against the table `deidentify` leaves, when no declared value is a token, no two share a token, the table holds nothing contrary, and Fernet round-trips |
| PseudonymizerProofs.LabReportScenario | app/pseudonymizer.py:33 | the Lab Report of Jane Doe against an empty table: each of the four fields becomes a 28-character token whose stored blob decrypts to the original value, and `reidentify` reproduces the document exactly |
| PseudonymizerProofs.LabReportFieldsArePlaintext | app/pseudonymizer.py:8-9 | none of the Lab Report's field values starts with `TKN_` |

## Left out

- HMAC-SHA256, the Fernet cipher (AES-CBC with HMAC) and random generation are not computed. They are the fields of `Crypto` and the `entropy` and `ivs` parameters. What the engine relies on of Fernet is stated as `CipherRoundTrip`, a hypothesis of the theorems. Injectivity of the truncated HMAC is a hypothesis too (`InjectiveOn`).
- `Fernet(FERNET_KEY)` validates the loaded key (app/security.py:21). A malformed `secret.key` makes the process fail at start; the model does not represent this.
- UTF-8 decoding of a decrypted blob is folded into `decrypt`: a blob whose plaintext is not valid UTF-8 counts as a decryption failure.
- `value.encode("utf-8")` (app/security.py:25, 31) raises `UnicodeEncodeError` on a string holding a lone surrogate, which `json.loads` produces from `"\ud800"`. A Dafny `string` cannot hold such a value, so the model has no such error. In the code, `deidentify` can raise part-way through its loop, after the mappings of earlier fields are already saved; the model does not capture this.
- Security.KeyManager.LoadOrCreateKey: cannot fail. In the code, `KEY_PATH.read_bytes()` and `KEY_PATH.write_bytes()` (app/security.py:14, 16) raise `OSError` when the key file cannot be read or written, and the import of the module fails.
- SQLite plumbing is not modelled: connections, `CREATE TABLE`, commit, file paths, and the exceptions a failing database raises.
- The `LIKE` pre-filter of `get_mapping_fuzzy` (app/storage.py:64) is not modelled separately. Its candidates are a subset of the full scan that follows, so the model keeps only the net effect: the first case-insensitive match in row order. Which row the pre-filter's unspecified order returns when several rows differ only in case is not modelled.
- Storage.AsciiLower: covers ASCII only, not Python's full Unicode `str.lower()`. Stored tokens are ASCII by construction, but the query `get_mapping_fuzzy` receives comes from upstream and need not be. Python lowers non-ASCII characters too: U+212A KELVIN SIGN becomes `k`, so such a query matches a stored token in the fallback scan (app/storage.py:74-77). The model leaves it unmatched.
- The debug `print` calls (app/storage.py:24, 31, 33, 44) are not modelled.
- Concurrent saves are not modelled; saves are sequential, and the atomicity of `INSERT OR IGNORE` is left to the database.
- JSON numbers are integers (`Num`), with no floats. The transforms pass every non-string through untouched, so this loses nothing they do.
- Dictionary key order is not modelled; documents are maps. Python's dict preserves insertion order, which the model does not track.
- Copying the document and its `PII` (`dict(doc)`, `dict(pii)`) is automatic: documents are values, so the input is never mutated.
- The FastAPI layer (app/main.py) and the inspection script (dump_db.py) are not part of this model. This includes the whitelist check of `Document_Type` before each transform.
