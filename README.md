# Vault engine of the `sesame` password manager, in Dafny

This project models the core of `sesame`, a command-line password manager
that keeps its secrets in one SQLite file. The file holds three tables:

- a singleton **header** with the Argon2id salt and cost parameters;
- a singleton **catalog** row, which is one ChaCha20-Poly1305 blob holding
  the list of `{id, title, updated_at}` entries;
- one encrypted **item** row per secret.

The model covers four source files:

- `catalog.rs`: loading, saving, sorting and searching the catalog, and
  resolving a selector to an id.
- `items.rs`: adding, reading, editing and deleting items, and keeping the
  catalog in step with them.
- `db.rs`: header creation, opening a session, master-password rotation and
  the guard checks before a backup.
- `util.rs`: the password generator, random ids, and the decision rules
  behind the prompts.

The modules follow the program:

- `Common`: results, errors, text rules, and the random source as an
  `Entropy` object.
- `Records`: the two serialised records.
- `Crypto`: the abstract cipher and KDF.
- `Store`: the connection and session classes.
- `Sorting`: generic stable sort and filter, with their in-place array
  algorithms.
- `CatalogOrder`: the two catalog orders.
- `Catalog`, `Items`, `Db` and `Util` follow the source files of those names.

The pieces of the environment are modelled as follows:

- **Tables.** They are fields of a `Connection` object that the operations
  update in place. A missing singleton row is `None`; the item table is a
  map keyed by id.
- **Cipher.** A ciphertext is the term `Sealed(key, nonce, plaintext)`, so
  decryption succeeds exactly under the key and nonce it was sealed with.
- **Key derivation.** A derived key is the term of its password, salt and
  parameters.
- **Randomness.** `getrandom` takes bytes from the front of a finite supply
  and fails when the supply is too short.
- **Clock.** The clock reading `now` is a parameter.

The central invariant is `Items.InStep`:

- the catalog lists each id once;
- every listed id names an item that decrypts, under the session key, to
  an item with the listed title;
- every item is listed.

Add, edit and delete preserve it when they succeed. Rotation preserves it
under the new key.

The code and the design description disagree in two places; the model
follows the code.

- **Add, edit and delete are not atomic.** The design says multi-row
  updates either fully apply or roll back. In the code, add, edit and delete
  write the item row and then, as separate statements outside any
  transaction, load and save the catalog. A failure after the item write
  leaves the item table changed and the catalog as it was. The contracts of
  `Items.AddItem`, `Items.EditItem` and `Items.DeleteItem` state exactly
  that: each gives the item table after the item write whatever happens to
  the catalog afterwards, and says that the catalog is unchanged on any
  error. Only master-password rotation is all-or-nothing.
- **Catalog calls in `items.rs`.** `items.rs` calls the catalog functions
  with a connection and a key (src/items.rs:45, src/items.rs:54), while
  `catalog.rs` takes the session (src/catalog.rs:39, src/catalog.rs:73).
  The model uses the evident intent: one `Vault` object holding the
  connection and the key.

## Model

| member | source | states |
|---|---|---|
| Common.Lower | src/catalog.rs:116 | lower-casing keeps the length and maps each character through `LowerChar` |
| Common.LowerChar | src/catalog.rs:116 | an upper-case ASCII letter becomes the lower-case letter 32 code points above it; every other character is kept |
| Common.LowerIdempotent | src/catalog.rs:116 | lower-casing twice is the same as lower-casing once |
| Common.TrimPadded | src/util.rs:45 | trimming removes exactly the whitespace around a word |
| Common.TrimDecomposes | src/util.rs:45 | every line is its trimmed form with nothing but whitespace before and after it |
| Common.Utf8Len | src/catalog.rs:118 | the byte length `str::len` counts lies between the character count and four times it |
| Common.ContainsAt | src/catalog.rs:138 | `str::contains` holds exactly when the needle occurs at some position of the haystack |
| Common.Entropy.GetRandom | src/util.rs:60-62 | a request the supply can meet returns its first `n` bytes and consumes them; otherwise it fails with `RandomUnavailable` and consumes nothing |
| Records.ParseEntries | src/catalog.rs:58-59 | parsing succeeds exactly on an encoded entry list, and gives back the entries that were encoded |
| Records.ParseItem | src/items.rs:94-95 | parsing succeeds exactly on an encoded item, and gives back the item that was encoded |
| Crypto.AsU32 | src/crypto.rs:10 | the `as u32` cast keeps values below 2^32 and reduces everything else into that range |
| Crypto.DeriveKey | src/crypto.rs:10-12 | derivation succeeds exactly when Argon2 accepts the cast parameters and the salt is at least 8 bytes; the key is then determined by the password and salt |
| Crypto.ArgonLimits | src/crypto.rs:10-11 | Argon2 accepts the vault's default parameters and refuses zero passes, zero lanes, less than 8 KiB, and less than 8 KiB per lane |
| Crypto.Decrypt | src/crypto.rs:36-42 | decryption succeeds exactly under the sealing key and nonce and returns the sealed plaintext; otherwise it fails authentication |
| Crypto.EncryptBlob | src/crypto.rs:25-34 | with 12 supply bytes, seals the plaintext under the key with those bytes as nonce and returns both; otherwise fails and consumes nothing |
| Crypto.SealRoundTrip | src/crypto.rs:25-42 | decrypting a sealed blob gives its plaintext back; under any other key it fails to authenticate |
| Store.Connection.UpdateItem | src/items.rs:143-146 | an UPDATE of an existing id rewrites its nonce, blob and update time, keeps its creation time, and reports one row; for an absent id it reports zero rows and changes nothing |
| Sorting.SortByPermutes | src/catalog.rs:67-69 | the stable sort returns a permutation of its input |
| Sorting.SortBySorted | src/catalog.rs:67-69 | under a strict weak order the sort's output is sorted |
| Sorting.SortByStable | src/catalog.rs:67-69 | elements that are pairwise equivalent keep their relative order |
| Sorting.SortInPlace | src/catalog.rs:67-69 | the in-place insertion sort leaves in the array exactly the stable sort of its old contents |
| Sorting.FilterMembers | src/catalog.rs:138 | an element survives `retain` exactly when it was present and accepted; the result is no longer than the input |
| Sorting.FilterPrefix | src/catalog.rs:141 | filtering a truncated sequence gives a prefix of the filtered whole |
| Sorting.RetainInPlace | src/catalog.rs:138 | in-place `retain` leaves the accepted elements, in their original order, at the front of the array |
| CatalogOrder.LessIsStrictWeakOrder | src/catalog.rs:67-69 | both orders are strict weak orders: by lower-cased title then id, and newest first |
| CatalogOrder.LexLessTotal | src/catalog.rs:68 | distinct strings are ordered one way or the other by `String::cmp` |
| CatalogOrder.SortStable | src/catalog.rs:139 | for each sort key, the entries with that key keep their catalog order after either sort |
| Catalog.OpenCatalogRow | src/catalog.rs:47-60 | a nonce that is not 12 bytes is rejected with its length; success means the blob was sealed under this key and nonce; an empty plaintext sealed under this key and a 12-byte nonce opens as the empty catalog |
| Catalog.LoadCatalog | src/catalog.rs:39-61 | a missing catalog row is `NoRow`; otherwise the result is that of opening the row under the session key |
| Catalog.SaveOpenRoundTrip | src/catalog.rs:39-85 | a saved catalog loads back as the saved entries; under another key it fails to authenticate |
| Catalog.EnsureEmptyCatalog | src/catalog.rs:16-37 | an existing catalog row is left alone, so a second call changes nothing; a missing one is created holding `[]` and then loads as the empty list |
| Catalog.SaveCatalog | src/catalog.rs:73-85 | with a nonce available, the catalog row is overwritten with the entries sealed under the session key and then loads as exactly those entries; other tables are untouched |
| Catalog.LoadCatalogSorted | src/catalog.rs:63-71 | a load error is passed through; otherwise the result is a permutation of the catalog, sorted by lower-cased title and then id, stably |
| Catalog.ParseIndex | src/catalog.rs:108 | `parse().unwrap_or(0)` is the decimal value of the digits when it fits in `usize`, and 0 for the empty string and for a value beyond `usize` |
| Catalog.Resolve | src/catalog.rs:100-131 | an empty catalog, an out-of-range index and a prefix shorter than 4 bytes are each rejected with their own error |
| Catalog.ResolveIndex | src/catalog.rs:107-113 | an all-digit selector resolves exactly when its value is between 1 and the length, and then to the id at that 1-based position |
| Catalog.ResolvePrefix | src/catalog.rs:116-130 | a long-enough prefix resolves exactly when one id starts with it, and then to that id; it is `NoMatch` exactly when no id starts with it |
| Catalog.ResolveAmbiguous | src/catalog.rs:121-128 | a long-enough prefix is rejected as `AmbiguousPrefix` exactly when two entries' ids start with it |
| Catalog.ResolveFindsEntry | src/catalog.rs:112-130 | every resolved id is the id of a catalog entry |
| Catalog.ResolveSelectorToId | src/catalog.rs:100-131 | the selector is resolved against the sorted catalog; a resolved id belongs to an entry of the catalog |
| Catalog.SearchTitles | src/catalog.rs:133-141 | the in-place retain, sort and truncate compute `SearchResult` of the loaded catalog; a load error is passed through |
| Catalog.SearchMembers | src/catalog.rs:134-141 | every hit is a catalog entry whose lower-cased title contains the lower-cased query, and without truncation every such entry is a hit; there are exactly `limit` hits when the matches outnumber a positive limit and otherwise as many as there are matches, and they are the first hits of the unlimited search |
| Catalog.SearchOrder | src/catalog.rs:139-141 | hits are newest first; for every limit, the hits with a given update time are a prefix of the matching catalog entries with that time, in catalog order, and all of them when there is no limit |
| Items.LoadItem | src/items.rs:75-98 | an absent id and a nonce that is not 12 bytes are errors; success means the row was sealed under the key and holds an item, and the result is that item |
| Items.FirstWithId | src/items.rs:47 | the position found is that of the first entry with the id, or the length when there is none |
| Items.Touch | src/items.rs:47-52 | the find-then-update-or-push loop computes `Touched` |
| Items.TouchedShape | src/items.rs:47-52 | the first entry with the id is replaced in place by the new entry, or the new entry is appended when the id is not listed |
| Items.TouchedMembers | src/items.rs:45-54 | the result holds the new entry and every entry with another id; it grows by one exactly when the id was absent; with unique ids nothing else is in it |
| Items.TouchedUnique | src/items.rs:46-52 | an entry is updated rather than duplicated, so ids stay unique |
| Items.TouchedKeepsOthers | src/items.rs:153-163 | the entries with other ids are unchanged and in the same order |
| Items.UpsertKeepsInStep | src/items.rs:36-54 | writing an item row sealed under the session key and touching its entry with the item's title keeps catalog and items in step |
| Items.FilterUniqueIds | src/items.rs:111 | `retain` keeps ids unique |
| Items.DeleteKeepsInStep | src/items.rs:102-117 | dropping the row and the id's entries keeps catalog and items in step |
| Items.DeleteRemovesEntry | src/items.rs:111 | after `retain`, no entry has the id, and every entry with another id remains |
| Items.TouchCatalog | src/items.rs:151-164 | the catalog is loaded, touched with the id, title and time, and saved; a load error is passed through; it succeeds whenever the catalog loads and a nonce is available; on error the catalog is unchanged; items and header are never touched |
| Items.AddItem | src/items.rs:17-58 | the item is sealed with a fresh nonce and inserted under a 32-hex-digit id with creation and update time `now`; fewer than 28 random bytes or a taken id change nothing; with a fresh id the row is inserted whatever follows, and a catalog that fails to load or 28 to 39 random bytes then fail with the catalog unchanged; with 40 bytes, a fresh id and a loadable catalog it succeeds; on success the item reads back as given, the catalog is touched with the id, and consistency between catalog and items is preserved |
| Items.ApplyEdits | src/items.rs:127-137 | title, username and notes become the trimmed answer unless it is blank; the password changes only when one was typed |
| Items.RewriteItem | src/items.rs:139-149 | the row is re-sealed with the first 12 supply bytes as nonce, keeping its creation time and taking `now` as update time, and those bytes are consumed; it succeeds exactly when the bytes are there and the row exists; an update that changes no row is `ItemDisappeared` and changes nothing |
| Items.StoreEdit | src/items.rs:138-164 | the writes of an edit: the row re-sealed with the first 12 supply bytes whatever follows, then the catalog touched and saved, with each failure of the catalog step named and the catalog unchanged on error; success keeps catalog and items consistent |
| Items.EditItem | src/items.rs:122-168 | an unreadable item is an error that changes nothing; fewer than 12 random bytes fail with the items unchanged; otherwise the row holds the edited item re-sealed under a fresh nonce even when the catalog step then fails, a catalog load error is passed through, and 12 to 23 random bytes fail with `RandomUnavailable`; with 24 bytes and a loadable catalog it succeeds; on success the item reads back as the edited fields, the catalog entry has the new title and time (re-added when missing), and consistency is preserved |
| Items.DeleteItem | src/items.rs:100-120 | an absent id is Ok and changes nothing; otherwise the row is gone whatever follows; a catalog that fails to load is passed through, and with fewer than 12 random bytes the save fails with `RandomUnavailable`; with a nonce available and a loadable catalog it succeeds, and then the catalog is the old one minus the id's entries and consistency is preserved |
| Db.EnsureHeader | src/db.rs:76-108 | an existing header is left alone; a missing one is created with version 1, 262144 KiB, 3 passes, 1 lane and a fresh 16-byte salt |
| Db.LoadKdfParams | src/db.rs:110-120 | a missing header and a salt shorter than 8 bytes are rejected; otherwise the salt and cost columns are returned as stored |
| Db.DeriveKeyFromHeader | src/crypto.rs:8-13 | succeeds exactly when the header exists, its salt is long enough and Argon2 accepts its cast parameters; the key is then the header's key of the password |
| Db.DefaultHeaderDerives | src/db.rs:86-100 | a default header always yields a key, whatever its format version, and different passwords yield different keys |
| Db.Open | src/db.rs:41-65 | opening never changes an existing header or catalog row, nor the items; reopening a vault whose header derives a key succeeds with that key, creating an empty catalog if it was missing and a nonce is available; a new vault gets the default header, a session key derived from it, and a catalog that loads as empty; the session's key is the header's key of the password |
| Db.ResealItems | src/db.rs:160-178 | on success every item row keeps its id and creation time, opened under the old key, and now holds the same plaintext under the new key with update time `now`; the rows, taken once each in some order, got as nonces the bytes at the front of the random supply, one after the other, so the k-th row taken got the k-th 12-byte block; exactly those bytes are consumed; success is guaranteed when every row opens and enough bytes are available |
| Db.NoncesAreBlocks | src/db.rs:171 | when every nonce is 12 bytes, nonces laid one after the other at the front of the supply are its consecutive 12-byte blocks |
| Db.ResealTables | src/db.rs:160-203 | the item rows and then the catalog row are re-sealed under the new key with the same plaintexts and update time `now`; the item nonces, in the order the rows were taken, then the catalog nonce, are exactly the bytes drawn from the front of the supply; it succeeds when every row opens and 12 bytes per row are available |
| Db.ResealRow | src/db.rs:161-176 | one row that opens under the old key is re-sealed under the new key with the next 12 supply bytes as nonce, the same plaintext and update time `now`; it succeeds whenever the row opens and the bytes are there |
| Db.ResealCatalog | src/db.rs:183-203 | the catalog row is re-sealed under the new key with the same plaintext, the next 12 supply bytes as nonce and update time `now`; a missing row is `NoRow`, and it succeeds whenever the row opens and the bytes are there |
| Db.SetMasterPassword | src/db.rs:122-217 | on any error header, catalog and items are exactly as before; it succeeds when the old key opens every row and enough random bytes are available; on success every item and the catalog decrypt to the same plaintext under the key of the new password with a new salt, the catalog no longer opens under a different old key, the items, once each in the order they were taken, and then the catalog take as nonces the bytes of the supply right after the salt, one after the other, and the header holds that salt and the default parameters |
| Db.ResealedReadsSame | src/db.rs:160-178 | a re-sealed item reads back under the new key as it did under the old one, and no longer opens under the old key |
| Db.RekeyKeepsInStep | src/db.rs:160-178 | re-keying items without changing what they read back as keeps the catalog in step |
| Db.RotationPreservesReads | src/db.rs:160-203 | after rotation every item reads back unchanged under the new key, none opens under the old key, and a consistent catalog stays consistent |
| Db.BackupGuard | src/db.rs:219-230 | the guard passes exactly when the source has a path, the destination is a different path, and it does not exist or overwriting was asked for; each refusal has its own error |
| Db.SamePathDoubledSeparator | src/db.rs:223 | a doubled separator does not make a different path |
| Db.SamePathDotPiece | src/db.rs:223 | a `.` piece does not make a different path |
| Db.SamePathTrailingSeparator | src/db.rs:223 | a trailing separator does not make a different non-empty path |
| Db.BackupRefusesRespelledSource | src/db.rs:223-225 | the live file under a respelled path is still refused as the source |
| Db.BackupComparesSpelling | src/db.rs:222-230 | a relative destination never equals an absolute source, so only the existence check applies to it |
| Util.TruncU32 | src/util.rs:91 | the `n as u32` cast keeps values below 2^32 and never increases a value |
| Util.FromLeBytes | src/util.rs:97 | four bytes read as a `u32` give a value of at most 2^32 - 1 |
| Util.FromLeBytesDigits | src/util.rs:97 | the read is little-endian: byte `i` is base-256 digit `i` of the value |
| Util.Sample | src/util.rs:93-99 | the rejection loop returns a value below `n32` and consumes a suffix of the supply, or fails when fewer than 4 bytes remain |
| Util.RandIndex | src/util.rs:86-101 | `n == 0` is `EmptyAlphabet`; a length whose low 32 bits are zero is the remainder-by-zero panic; otherwise the result is that of the rejection loop and lies below `n` |
| Util.NoModuloBias | src/util.rs:92 | the rejection bound is a multiple of `n32`, so every index below `n32` is the remainder of exactly `limit / n32` accepted draws |
| Util.PickOne | src/util.rs:103-105 | an empty alphabet is an error; a chosen character is from the alphabet, at the index the rejection loop draws; for a non-empty alphabet of at most 2^32 - 1 characters the only failure is an exhausted random supply |
| Util.NoAmbiguousGlyphs | src/util.rs:114-118 | no class contains `I`, `l`, `1`, `0` or `O` |
| Util.BucketsInUnion | src/util.rs:127-146 | every character of an enabled class is in the union alphabet |
| Util.Shuffle | src/util.rs:161-165 | the Fisher-Yates loop only swaps, so it keeps the multiset of characters; for an array of at most 2^32 - 1 characters the only failure is an exhausted random supply |
| Util.ShuffledCopy | src/util.rs:161-168 | the shuffled password has the drawn characters, each as often as it was drawn; for at most 2^32 - 1 characters the only failure is an exhausted random supply |
| Util.GenPassword | src/util.rs:107-170 | no class enabled, or a length below the number of enabled classes, is rejected; past those checks, for a length of at most 2^32 - 1 the only failure is an exhausted random supply; a password has exactly `len` characters, all from the union, and at least one from each enabled class |
| Util.HexByte | src/util.rs:63 | `{:02x}` gives two lower-case hex digits whose value is the byte |
| Util.HexId | src/util.rs:63 | the id has two lower-case hex digits per byte |
| Util.HexRoundTrip | src/util.rs:58-64 | a hex id decodes back to its bytes, so distinct draws give distinct ids |
| Util.NewId | src/util.rs:58-64 | with 16 supply bytes the id is their 32-digit hex form and the bytes are consumed; otherwise it fails and consumes nothing |
| Util.WithDefault | src/util.rs:45-46 | a blank trimmed answer keeps the current value; a non-blank one is the result, trimmed |
| Util.OptionalPassword | src/util.rs:54-55 | an empty answer means no new password; any other answer is the new password as typed |
| Util.Confirm | src/util.rs:73-84 | a failed read is never a yes; which lines are a yes is stated by the two lemmas that follow |
| Util.ConfirmIgnoresPadding | src/util.rs:79 | `y` or `Y` surrounded by whitespace is a yes |
| Util.ConfirmNeedsYes | src/util.rs:79 | conversely, every yes is a single `y` or `Y` with only whitespace around it |

## Left out

- Cipher and KDF internals: ChaCha20-Poly1305 (section 2.8 of RFC 8439)
  and Argon2id (section 3.1 of RFC 9106) are symbolic. A ciphertext that was
  not sealed by the vault is `Garbage` and never authenticates. Two keys
  from different inputs are assumed distinct.
- JSON encoding: a plaintext is one of the values the vault writes, so
  serialising and then parsing gives the value back by construction.
- SQL text, the schema DDL, rusqlite statement and transaction mechanics,
  and the page-level copy of a backup. `create_dir_all` and the `chmod
  0600` of the vault and its backups are also left out. `Vault::open` starts
  from a connection whose tables exist.
- Terminal I/O: prompts, `read_line`, `read_password` and all printing.
  This includes `list_items` and `show_item`, which only print. The answers
  to the prompts are parameters.
- The clipboard code in `src/util.rs`, and `src/main.rs`.
- Memory wiping (`Zeroizing`), which has no counterpart in Dafny.
- Unicode lower-casing: `to_lowercase` is modelled as ASCII lower-casing.
- The clock is the parameter `now`. `save_catalog` reads the clock again
  itself; the model uses the caller's reading.
- Randomness: the OS random source is the finite supply of an `Entropy`
  object. Probability is not modelled, apart from the counting argument of
  `Util.NoModuloBias`.
- The item INSERT of `add_item_interactive` fails on an existing primary
  key; this is modelled as the error `DuplicateId`.
- Db.SetMasterPassword: the session's key is not replaced after a
  rotation, as in the source. A session that rotated keeps reading with the
  old key until the vault is opened again. The contract does not say how
  much of the random supply a failed rotation used.
- Db.ResealItems: the table yields rows in rowid order; the model takes
  them in an arbitrary order. When several rows are bad, which error is
  reported is left open.
- Db.Open: when a new vault runs out of random bytes, the contract does not
  name the error.
- Db.BackupGuard: paths are compared component by component, as
  `Path == Path` does on Unix. Windows prefixes are not modelled, and
  neither is the existence test, which is a parameter.
- Util.Shuffle: the contract states that the characters are kept, not
  which permutation the random draws select, nor how much of the supply is
  used.
- Util.GenPassword: the contract states the promised properties of the
  password, not which password a given random supply produces.
- Items.RewriteItem: inside `Items.EditItem` the row was read just before,
  so without concurrent writers its `ItemDisappeared` branch cannot be
  taken there. It is reachable when `Items.RewriteItem` is called on its own.
