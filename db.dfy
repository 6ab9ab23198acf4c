/** The vault store: the header with its KDF inputs, opening a session,
    master-password rotation and the checks made before a backup.

    Opening the file, running the schema and hardening its permissions are
    not modelled; a session starts from a connection whose tables are
    already in place. */
module Db {
  import opened Common
  import opened Records
  import opened Crypto
  import opened Store
  import opened Catalog
  import opened Items

  /** The header a new vault gets (src/db.rs:87-93). */
  const FormatVersion: int := 1
  const DefaultMemKib: int := 256 * 1024
  const DefaultIters: int := 3
  const DefaultParallelism: int := 1
  const SaltLen: nat := 16

  function DefaultHeader(salt: seq<byte>): Header {
    Header(FormatVersion, salt, DefaultMemKib, DefaultIters, DefaultParallelism)
  }

  /** `ensure_header`: when there is no header, inserts one with a fresh
      16-byte salt and the default cost parameters; otherwise changes
      nothing. */
  method EnsureHeader(conn: Connection, rng: Entropy) returns (r: Result<()>)
    modifies conn, rng
    ensures conn.catalog == old(conn.catalog) && conn.items == old(conn.items)
    ensures old(conn.header).Some? ==> r == Ok(()) && conn.header == old(conn.header) && rng.pool == old(rng.pool)
    ensures old(conn.header).None? && |old(rng.pool)| < SaltLen ==>
      r == Err(RandomUnavailable) && conn.header == old(conn.header) && rng.pool == old(rng.pool)
    ensures old(conn.header).None? && SaltLen <= |old(rng.pool)| ==>
      r == Ok(()) && conn.header == Some(DefaultHeader(old(rng.pool)[..SaltLen])) && rng.pool == old(rng.pool)[SaltLen..]
    ensures r.Ok? ==> conn.header.Some?
  {
    if conn.header.Some? {
      return Ok(());
    }
    var salt :- rng.GetRandom(SaltLen);
    conn.header := Some(DefaultHeader(salt));
    r := Ok(());
  }

  /** `load_kdf_params`: the salt and the three cost columns of the header.
      A missing header and a salt shorter than 8 bytes are errors. */
  function LoadKdfParams(header: Option<Header>): (r: Result<(seq<byte>, int, int, int)>)
    ensures header.None? ==> r == Err(NoRow)
    ensures header.Some? && |header.value.salt| < MinArgonSalt ==> r == Err(InvalidSalt)
    ensures r.Ok? <==> header.Some? && MinArgonSalt <= |header.value.salt|
    ensures r.Ok? ==>
      && r.value.0 == header.value.salt
      && r.value.1 == header.value.memKib && r.value.2 == header.value.iters && r.value.3 == header.value.parallelism
  {
    match header
    case None => Err(NoRow)
    case Some(h) =>
      if |h.salt| < MinArgonSalt then Err(InvalidSalt)
      else Ok((h.salt, h.memKib, h.iters, h.parallelism))
  }

  /** `derive_key_from_header`: the key of `password` under the header's
      salt and cost parameters. */
  function DeriveKeyFromHeader(header: Option<Header>, password: string): (r: Result<Key>)
    ensures r.Ok? <==>
      && header.Some? && MinArgonSalt <= |header.value.salt|
      && ArgonAccepts(KdfParams(AsU32(header.value.memKib), AsU32(header.value.iters), AsU32(header.value.parallelism)))
    ensures r.Ok? ==> r.value == DerivedKey(password, header.value.salt,
      KdfParams(AsU32(header.value.memKib), AsU32(header.value.iters), AsU32(header.value.parallelism)))
  {
    var (salt, memKib, iters, parallelism) :- LoadKdfParams(header);
    DeriveKey(password, salt, memKib, iters, parallelism)
  }

  /** The key a password derives under the default cost parameters. */
  function DefaultKey(password: string, salt: seq<byte>): Key {
    DerivedKey(password, salt, KdfParams(DefaultMemKib, DefaultIters, DefaultParallelism))
  }

  /** A header written with the defaults and a 16-byte salt always yields a
      key, and a different password yields a different key. */
  lemma DefaultHeaderDerives(password: string, other: string, salt: seq<byte>, formatVersion: int)
    requires |salt| == SaltLen
    ensures DeriveKeyFromHeader(Some(DefaultHeader(salt)), password) == Ok(DefaultKey(password, salt))
    ensures DeriveKeyFromHeader(Some(DefaultHeader(salt).(formatVersion := formatVersion)), password)
      == Ok(DefaultKey(password, salt))
    ensures other != password ==> DefaultKey(other, salt) != DefaultKey(password, salt)
  {
    assert AsU32(DefaultMemKib) == DefaultMemKib;
  }

  /** `Vault::open` from the point where the schema exists: ensures the
      header, derives the session key from it, and ensures the catalog row.
      A wrong password is not detected here: the session opens, and the
      first decryption under its key fails. */
  method Open(conn: Connection, password: string, now: int, rng: Entropy) returns (r: Result<Vault>)
    modifies conn, rng
    ensures conn.items == old(conn.items)
    ensures old(conn.header).Some? ==> conn.header == old(conn.header)
    ensures old(conn.catalog).Some? ==> conn.catalog == old(conn.catalog)
    ensures old(conn.header).Some? && DeriveKeyFromHeader(old(conn.header), password).Err? ==>
      r == Err(DeriveKeyFromHeader(old(conn.header), password).error) && conn.catalog == old(conn.catalog)
    ensures r.Ok? ==>
      && fresh(r.value) && r.value.conn == conn && conn.header.Some? && conn.catalog.Some?
      && DeriveKeyFromHeader(conn.header, password) == Ok(r.value.key)
    ensures old(conn.header).None? && old(conn.catalog).None? && SaltLen + NonceLen <= |old(rng.pool)| ==>
      && r.Ok? && conn.header == Some(DefaultHeader(old(rng.pool)[..SaltLen]))
      && r.value.key == DefaultKey(password, old(rng.pool)[..SaltLen])
      && LoadCatalog(r.value) == Ok([])
    ensures old(conn.header).None? && old(conn.catalog).None? && old(conn.items) == map[] && r.Ok? ==>
      VaultInStep(r.value)
    ensures old(conn.header).Some? && old(conn.catalog).Some? && DeriveKeyFromHeader(old(conn.header), password).Ok? ==>
      r.Ok? && r.value.key == DeriveKeyFromHeader(old(conn.header), password).value
    ensures (old(conn.header).Some? && old(conn.catalog).None? && DeriveKeyFromHeader(old(conn.header), password).Ok?
      && NonceLen <= |old(rng.pool)|) ==>
      && r.Ok? && r.value.key == DeriveKeyFromHeader(old(conn.header), password).value
      && LoadCatalog(r.value) == Ok([])
  {
    var ensured :- EnsureHeader(conn, rng);
    var key :- DeriveKeyFromHeader(conn.header, password);
    var created :- EnsureEmptyCatalog(conn, key, now, rng);
    var v := new Vault(conn, key);
    r := Ok(v);
  }

  /** The blob `ct` sealed with `nonce` authenticates under `key`. */
  predicate Opens(nonce: seq<byte>, ct: Ciphertext, key: Key) {
    |nonce| == NonceLen && Decrypt(key, nonce, ct).Ok?
  }

  /** Every item row and the catalog row open under `key`: what rotation
      needs to succeed. */
  predicate Rotatable(items: map<string, ItemRow>, catalog: Option<CatalogRow>, key: Key) {
    && (forall id :: id in items ==> Opens(items[id].nonce, items[id].ciphertext, key))
    && catalog.Some? && Opens(catalog.value.nonce, catalog.value.ciphertext, key)
  }

  /** `after` holds under `newKey` what `before` held under `oldKey`, with a
      12-byte nonce, the same creation time, and `now` as update time. */
  predicate Resealed(before: ItemRow, oldKey: Key, after: ItemRow, newKey: Key, now: int) {
    && Opens(before.nonce, before.ciphertext, oldKey)
    && Opens(after.nonce, after.ciphertext, newKey)
    && Decrypt(newKey, after.nonce, after.ciphertext) == Decrypt(oldKey, before.nonce, before.ciphertext)
    && after.createdAt == before.createdAt
    && after.updatedAt == now
  }

  /** A resealed item reads back the same under the new key as it did under
      the old one, and no longer opens under the old key. */
  lemma ResealedReadsSame(items: map<string, ItemRow>, oldKey: Key, items': map<string, ItemRow>, newKey: Key,
                          now: int, id: string)
    requires items.Keys == items'.Keys
    requires forall x :: x in items ==> Resealed(items[x], oldKey, items'[x], newKey, now)
    ensures LoadItem(items', newKey, id) == LoadItem(items, oldKey, id)
    ensures id in items' && newKey != oldKey ==> !Opens(items'[id].nonce, items'[id].ciphertext, oldKey)
  {
    if id in items {
      assert Resealed(items[id], oldKey, items'[id], newKey, now);
    }
  }

  /** Re-keying every item without changing what it reads back as keeps a
      catalog in step with the item table. */
  lemma RekeyKeepsInStep(entries: seq<CatalogEntry>, items: map<string, ItemRow>, oldKey: Key,
                         items': map<string, ItemRow>, newKey: Key)
    requires InStep(entries, items, oldKey)
    requires items.Keys == items'.Keys
    requires forall id :: LoadItem(items', newKey, id) == LoadItem(items, oldKey, id)
    ensures InStep(entries, items', newKey)
  {
    forall id | id in items' ensures exists e :: e in entries && e.id == id {
      assert id in items;
    }
  }

  /** `order` lists every id of `keys` exactly once. */
  predicate ListsOnce(order: seq<string>, keys: set<string>) {
    && (forall k :: 0 <= k < |order| ==> order[k] in keys)
    && (forall id :: id in keys ==> id in order)
    && (forall i, j :: 0 <= i < j < |order| ==> order[i] != order[j])
  }

  /** The nonces of the rows named by `order`, one after the other. */
  function NoncesOf(rows: map<string, ItemRow>, order: seq<string>): seq<byte> {
    if order == [] then []
    else NoncesOf(rows, order[..|order| - 1]) + (if order[|order| - 1] in rows then rows[order[|order| - 1]].nonce else [])
  }

  lemma {:induction false} NoncesOfUpdate(rows: map<string, ItemRow>, order: seq<string>, id: string, row: ItemRow)
    requires id !in order
    ensures NoncesOf(rows[id := row], order) == NoncesOf(rows, order)
    decreases |order|
  {
    if order != [] {
      NoncesOfUpdate(rows, order[..|order| - 1], id, row);
    }
  }

  /** Taking the rows of `rows` in the order `order`, the k-th row's nonce is
      the k-th block of `NonceLen` bytes of `pool`. */
  predicate DrawnInOrder(rows: map<string, ItemRow>, order: seq<string>, pool: seq<byte>) {
    && NonceLen * |order| <= |pool|
    && forall k :: 0 <= k < |order| ==>
         order[k] in rows && rows[order[k]].nonce == pool[NonceLen * k..NonceLen * (k + 1)]
  }

  /** When every nonce is 12 bytes, nonces that make up the front of `pool`
      are its consecutive 12-byte blocks. */
  lemma {:induction false} NoncesAreBlocks(rows: map<string, ItemRow>, order: seq<string>, pool: seq<byte>)
    requires forall k :: 0 <= k < |order| ==> order[k] in rows && |rows[order[k]].nonce| == NonceLen
    requires NoncesOf(rows, order) <= pool
    ensures |NoncesOf(rows, order)| == NonceLen * |order|
    ensures DrawnInOrder(rows, order, pool)
    decreases |order|
  {
    if order != [] {
      var init, last := order[..|order| - 1], order[|order| - 1];
      var front := NoncesOf(rows, init);
      assert NoncesOf(rows, order) == front + rows[last].nonce;
      NoncesAreBlocks(rows, init, pool);
      forall k | 0 <= k < |order|
        ensures order[k] in rows && rows[order[k]].nonce == pool[NonceLen * k..NonceLen * (k + 1)]
      {
        if k < |init| {
          assert order[k] == init[k];
        } else {
          assert pool[NonceLen * k..NonceLen * (k + 1)] == NoncesOf(rows, order)[|front|..];
        }
      }
    }
  }

  /** `order` lists, once each, exactly the ids of `keys` outside `todo`. */
  predicate Visited(order: seq<string>, keys: set<string>, todo: set<string>) {
    && (forall k :: 0 <= k < |order| ==> order[k] in keys && order[k] !in todo)
    && (forall id :: id in keys && id !in todo ==> id in order)
    && (forall i, j :: 0 <= i < j < |order| ==> order[i] != order[j])
  }

  lemma VisitedStep(order: seq<string>, keys: set<string>, todo: set<string>, id: string)
    requires Visited(order, keys, todo) && id in todo && todo <= keys
    ensures Visited(order + [id], keys, todo - {id})
  {
    var order' := order + [id];
    forall i, j | 0 <= i < j < |order'| ensures order'[i] != order'[j] {
      if j == |order| {
        assert order'[i] == order[i];
      }
    }
  }

  /** One turn of the loop of `set_master_password` over the item table:
      the row must have a 12-byte nonce and open under `oldKey`; it is
      re-sealed under `newKey` with the next 12 bytes of the random supply as
      its nonce and stamped `now`. */
  method ResealRow(row: ItemRow, oldKey: Key, newKey: Key, now: int, rng: Entropy) returns (r: Result<ItemRow>)
    modifies rng
    ensures Opens(row.nonce, row.ciphertext, oldKey) && NonceLen <= |old(rng.pool)| ==> r.Ok?
    ensures r.Ok? ==>
      && Resealed(row, oldKey, r.value, newKey, now)
      && NonceLen <= |old(rng.pool)| && r.value.nonce == old(rng.pool)[..NonceLen]
      && rng.pool == old(rng.pool)[NonceLen..]
  {
    if |row.nonce| != NonceLen {
      return Err(BadNonceLength(|row.nonce|));
    }
    var pt :- Decrypt(oldKey, row.nonce, row.ciphertext);
    var sealed :- EncryptBlob(newKey, pt, rng);
    r := Ok(row.(nonce := sealed.1, ciphertext := sealed.0, updatedAt := now));
  }

  /** The state of the loop of `ResealItems` after the rows outside `todo`
      were re-sealed, in the order `order`, with nonces drawn from the front
      of `pool`, leaving `rest` of it. */
  predicate Progress(items: map<string, ItemRow>, copy: map<string, ItemRow>, todo: set<string>, order: seq<string>,
                     pool: seq<byte>, rest: seq<byte>, oldKey: Key, newKey: Key, now: int) {
    && todo <= copy.Keys == items.Keys
    && (forall id :: id in todo ==> copy[id] == items[id])
    && (forall id :: id in items && id !in todo ==> Resealed(items[id], oldKey, copy[id], newKey, now))
    && |order| == |items| - |todo|
    && Visited(order, items.Keys, todo)
    && pool == NoncesOf(copy, order) + rest
  }

  lemma ResealedStep(items: map<string, ItemRow>, copy: map<string, ItemRow>, todo: set<string>,
                     oldKey: Key, newKey: Key, now: int, id: string, row: ItemRow)
    requires todo <= copy.Keys == items.Keys && id in todo
    requires forall x :: x in todo ==> copy[x] == items[x]
    requires forall x :: x in items && x !in todo ==> Resealed(items[x], oldKey, copy[x], newKey, now)
    requires Resealed(copy[id], oldKey, row, newKey, now)
    ensures todo - {id} <= copy[id := row].Keys == items.Keys
    ensures forall x :: x in todo - {id} ==> copy[id := row][x] == items[x]
    ensures forall x :: x in items && x !in todo - {id} ==> Resealed(items[x], oldKey, copy[id := row][x], newKey, now)
  {
  }

  lemma ProgressStep(items: map<string, ItemRow>, copy: map<string, ItemRow>, todo: set<string>, order: seq<string>,
                     pool: seq<byte>, rest: seq<byte>, oldKey: Key, newKey: Key, now: int, id: string, row: ItemRow)
    requires Progress(items, copy, todo, order, pool, rest, oldKey, newKey, now) && id in todo
    requires Resealed(copy[id], oldKey, row, newKey, now)
    requires NonceLen <= |rest| && row.nonce == rest[..NonceLen]
    ensures Progress(items, copy[id := row], todo - {id}, order + [id], pool, rest[NonceLen..], oldKey, newKey, now)
  {
    ResealedStep(items, copy, todo, oldKey, newKey, now, id, row);
    VisitedStep(order, items.Keys, todo, id);
    assert id !in order;
    NoncesStep(copy, order, pool, rest, id, row);
  }

  lemma NoncesStep(copy: map<string, ItemRow>, order: seq<string>, pool: seq<byte>, rest: seq<byte>,
                   id: string, row: ItemRow)
    requires id !in order && pool == NoncesOf(copy, order) + rest
    requires NonceLen <= |rest| && row.nonce == rest[..NonceLen]
    ensures pool == NoncesOf(copy[id := row], order + [id]) + rest[NonceLen..]
  {
    var order' := order + [id];
    NoncesOfUpdate(copy, order, id, row);
    assert NoncesOf(copy[id := row], order') == NoncesOf(copy, order) + row.nonce by {
      assert order'[..|order'| - 1] == order;
    }
    assert rest == row.nonce + rest[NonceLen..];
  }

  /** When no row is left, every row was re-sealed, each once, and the
      nonces drawn are the first 12-byte blocks of the supply. */
  lemma ProgressDone(items: map<string, ItemRow>, copy: map<string, ItemRow>, order: seq<string>,
                     pool: seq<byte>, rest: seq<byte>, oldKey: Key, newKey: Key, now: int)
    requires Progress(items, copy, {}, order, pool, rest, oldKey, newKey, now)
    ensures NoncesDrawn(items.Keys, copy, order, pool, rest)
    ensures DrawnInOrder(copy, order, pool)
    ensures rest == pool[NonceLen * |items|..]
  {
    assert ListsOnce(order, items.Keys);
    NoncesAreBlocks(copy, order, pool);
  }

  /** Twelve bytes per remaining row: one row's worth is there, and the rest
      covers the others. */
  lemma BlocksLeft(t: nat, n: nat)
    requires 0 < t && NonceLen * t <= n
    ensures NonceLen <= n && NonceLen * (t - 1) <= n - NonceLen
  {
  }

  /** The rows of `rows` named in `keys` took, once each and in the order
      `order`, the nonces that make up the front of `pool`, leaving `rest`. */
  predicate NoncesDrawn(keys: set<string>, rows: map<string, ItemRow>, order: seq<string>, pool: seq<byte>,
                        rest: seq<byte>) {
    |order| == |keys| && ListsOnce(order, keys) && pool == NoncesOf(rows, order) + rest
  }

  /** The loop of `set_master_password` over the item table, on the
      transaction's copy: each row, in the order the table yields them, must
      have a 12-byte nonce and open under `oldKey`; it is re-sealed under
      `newKey` with the next 12 bytes of the random supply as its nonce and
      stamped `now`. The ghost `order` is the order the rows were taken in. */
  method ResealItems(items: map<string, ItemRow>, oldKey: Key, newKey: Key, now: int, rng: Entropy)
    returns (r: Result<map<string, ItemRow>>, ghost order: seq<string>)
    modifies rng
    ensures r.Ok? ==> r.value.Keys == items.Keys
    ensures r.Ok? ==> forall id :: id in items ==> Resealed(items[id], oldKey, r.value[id], newKey, now)
    ensures ((forall id :: id in items ==> Opens(items[id].nonce, items[id].ciphertext, oldKey))
      && NonceLen * |items| <= |old(rng.pool)|) ==> r.Ok?
    ensures r.Ok? ==>
      && NoncesDrawn(items.Keys, r.value, order, old(rng.pool), rng.pool)
      && DrawnInOrder(r.value, order, old(rng.pool))
      && rng.pool == old(rng.pool)[NonceLen * |items|..]
  {
    ghost var pool := rng.pool;
    ghost var enough := (forall id :: id in items ==> Opens(items[id].nonce, items[id].ciphertext, oldKey))
      && NonceLen * |items| <= |pool|;
    var copy := items;
    var todo := items.Keys;
    order := [];
    while todo != {}
      invariant Progress(items, copy, todo, order, pool, rng.pool, oldKey, newKey, now)
      invariant enough ==> NonceLen * |todo| <= |rng.pool|
      decreases todo
    {
      var id :| id in todo;
      ghost var before := rng.pool;
      assert enough ==> NonceLen <= |before| && Opens(copy[id].nonce, copy[id].ciphertext, oldKey) by {
        if enough {
          BlocksLeft(|todo|, |before|);
        }
      }
      var resealed := ResealRow(copy[id], oldKey, newKey, now, rng);
      if resealed.Err? {
        return Err(resealed.error), order;
      }
      var row := resealed.value;
      ProgressStep(items, copy, todo, order, pool, before, oldKey, newKey, now, id, row);
      if enough {
        BlocksLeft(|todo|, |before|);
      }
      copy := copy[id := row];
      todo := todo - {id};
      order := order + [id];
    }
    r := Ok(copy);
    ProgressDone(items, copy, order, pool, rng.pool, oldKey, newKey, now);
  }

  /** The catalog step of `set_master_password`: the row must exist, have a
      12-byte nonce and open under `oldKey`; it is re-sealed under `newKey`
      with a fresh nonce and stamped `now`. */
  method ResealCatalog(catalog: Option<CatalogRow>, oldKey: Key, newKey: Key, now: int, rng: Entropy)
    returns (r: Result<CatalogRow>)
    modifies rng
    ensures catalog.None? ==> r == Err(NoRow)
    ensures r.Ok? ==> catalog.Some? && Opens(catalog.value.nonce, catalog.value.ciphertext, oldKey)
    ensures r.Ok? ==>
      && Opens(r.value.nonce, r.value.ciphertext, newKey) && r.value.updatedAt == now
      && Decrypt(newKey, r.value.nonce, r.value.ciphertext) == Decrypt(oldKey, catalog.value.nonce, catalog.value.ciphertext)
    ensures (catalog.Some? && Opens(catalog.value.nonce, catalog.value.ciphertext, oldKey)
      && NonceLen <= |old(rng.pool)|) ==> r.Ok?
    ensures r.Ok? ==>
      && NonceLen <= |old(rng.pool)| && r.value.nonce == old(rng.pool)[..NonceLen]
      && rng.pool == old(rng.pool)[NonceLen..]
  {
    if catalog.None? {
      return Err(NoRow);
    }
    var row := catalog.value;
    if |row.nonce| != NonceLen {
      return Err(BadNonceLength(|row.nonce|));
    }
    var pt :- Decrypt(oldKey, row.nonce, row.ciphertext);
    var sealed :- EncryptBlob(newKey, pt, rng);
    r := Ok(CatalogRow(sealed.1, sealed.0, now));
  }

  /** The re-sealing steps of `set_master_password`, on copies of the
      tables: every item row, in the order the table yields them, then the
      catalog row, each under `newKey` with the next 12 bytes of the random
      supply as its nonce. The ghost `order` is the order the item rows were
      taken in. */
  method ResealTables(items: map<string, ItemRow>, catalog: Option<CatalogRow>, oldKey: Key, newKey: Key, now: int,
                      rng: Entropy)
    returns (r: Result<(map<string, ItemRow>, CatalogRow)>, ghost order: seq<string>)
    modifies rng
    ensures r.Ok? ==> Rotatable(items, catalog, oldKey)
    ensures Rotatable(items, catalog, oldKey) && NonceLen * (|items| + 1) <= |old(rng.pool)| ==> r.Ok?
    ensures r.Ok? ==>
      && r.value.0.Keys == items.Keys
      && forall id :: id in items ==> Resealed(items[id], oldKey, r.value.0[id], newKey, now)
    ensures r.Ok? ==>
      && catalog.Some?
      && Opens(r.value.1.nonce, r.value.1.ciphertext, newKey) && r.value.1.updatedAt == now
      && Decrypt(newKey, r.value.1.nonce, r.value.1.ciphertext)
         == Decrypt(oldKey, catalog.value.nonce, catalog.value.ciphertext)
    ensures r.Ok? ==>
      && NoncesDrawn(items.Keys, r.value.0, order, old(rng.pool), r.value.1.nonce + rng.pool)
  {
    ghost var pool := rng.pool;
    var copy;
    copy, order := ResealItems(items, oldKey, newKey, now, rng);
    if copy.Err? {
      return Err(copy.error), order;
    }
    ghost var rest := rng.pool;
    assert Rotatable(items, catalog, oldKey) && NonceLen * (|items| + 1) <= |pool| ==> NonceLen <= |rest| by {
      assert NonceLen * (|items| + 1) == NonceLen * |items| + NonceLen;
    }
    var row := ResealCatalog(catalog, oldKey, newKey, now, rng);
    if row.Err? {
      return Err(row.error), order;
    }
    r := Ok((copy.value, row.value));
    assert rest == row.value.nonce + rng.pool;
  }

  /** `set_master_password`: derives the current key from `oldPw`, draws a
      new salt and derives the new key from `newPw` with the default
      parameters; then, working on a copy of the tables, re-seals every item
      row and the catalog row under the new key with fresh nonces, and
      rewrites the header's salt and parameters. The copy replaces the
      tables only when every step succeeded: on any error, nothing changes.
      The session key is not updated. The ghost `order` is the order the item
      rows were re-sealed in. */
  method SetMasterPassword(v: Vault, oldPw: string, newPw: string, now: int, rng: Entropy)
    returns (r: Result<()>, ghost order: seq<string>)
    modifies v.conn, rng
    ensures r.Err? ==>
      v.conn.header == old(v.conn.header) && v.conn.catalog == old(v.conn.catalog) && v.conn.items == old(v.conn.items)
    ensures DeriveKeyFromHeader(old(v.conn.header), oldPw).Err? ==> r == Err(DeriveKeyFromHeader(old(v.conn.header), oldPw).error)
    ensures r.Ok? ==>
      && DeriveKeyFromHeader(old(v.conn.header), oldPw).Ok? && SaltLen <= |old(rng.pool)|
      && Rotatable(old(v.conn.items), old(v.conn.catalog), DeriveKeyFromHeader(old(v.conn.header), oldPw).value)
    ensures (
      && DeriveKeyFromHeader(old(v.conn.header), oldPw).Ok?
      && Rotatable(old(v.conn.items), old(v.conn.catalog), DeriveKeyFromHeader(old(v.conn.header), oldPw).value)
      && SaltLen + NonceLen * (|old(v.conn.items)| + 1) <= |old(rng.pool)|) ==> r.Ok?
    ensures r.Ok? ==>
      && v.conn.header == Some(old(v.conn.header).value.(salt := old(rng.pool)[..SaltLen], memKib := DefaultMemKib,
           iters := DefaultIters, parallelism := DefaultParallelism))
      && DeriveKeyFromHeader(v.conn.header, newPw) == Ok(DefaultKey(newPw, old(rng.pool)[..SaltLen]))
    ensures r.Ok? ==>
      && v.conn.items.Keys == old(v.conn.items).Keys
      && forall id :: id in old(v.conn.items) ==>
           Resealed(old(v.conn.items)[id], DeriveKeyFromHeader(old(v.conn.header), oldPw).value,
                    v.conn.items[id], DefaultKey(newPw, old(rng.pool)[..SaltLen]), now)
    ensures r.Ok? ==>
      && v.conn.catalog.Some? && v.conn.catalog.value.updatedAt == now
      && OpenCatalogRow(v.conn.catalog.value, DefaultKey(newPw, old(rng.pool)[..SaltLen]))
         == OpenCatalogRow(old(v.conn.catalog).value, DeriveKeyFromHeader(old(v.conn.header), oldPw).value)
    ensures r.Ok? ==>
      && old(v.conn.catalog).Some? && v.conn.catalog.Some?
      && Opens(old(v.conn.catalog).value.nonce, old(v.conn.catalog).value.ciphertext,
               DeriveKeyFromHeader(old(v.conn.header), oldPw).value)
      && Opens(v.conn.catalog.value.nonce, v.conn.catalog.value.ciphertext, DefaultKey(newPw, old(rng.pool)[..SaltLen]))
      && Decrypt(DefaultKey(newPw, old(rng.pool)[..SaltLen]), v.conn.catalog.value.nonce, v.conn.catalog.value.ciphertext)
         == Decrypt(DeriveKeyFromHeader(old(v.conn.header), oldPw).value, old(v.conn.catalog).value.nonce,
                    old(v.conn.catalog).value.ciphertext)
    ensures r.Ok? && DefaultKey(newPw, old(rng.pool)[..SaltLen]) != DeriveKeyFromHeader(old(v.conn.header), oldPw).value ==>
      !Opens(v.conn.catalog.value.nonce, v.conn.catalog.value.ciphertext, DeriveKeyFromHeader(old(v.conn.header), oldPw).value)
    ensures r.Ok? ==>
      && NoncesDrawn(old(v.conn.items).Keys, v.conn.items, order, old(rng.pool)[SaltLen..],
                     v.conn.catalog.value.nonce + rng.pool)
  {
    order := [];
    var oldKey := DeriveKeyFromHeader(v.conn.header, oldPw);
    if oldKey.Err? {
      return Err(oldKey.error), order;
    }
    var salt := rng.GetRandom(SaltLen);
    if salt.Err? {
      return Err(salt.error), order;
    }
    var newKey := DeriveKey(newPw, salt.value, DefaultMemKib, DefaultIters, DefaultParallelism);
    if newKey.Err? {
      return Err(newKey.error), order;
    }
    assert newKey.value == DefaultKey(newPw, salt.value);
    var tables;
    tables, order := ResealTables(v.conn.items, v.conn.catalog, oldKey.value, newKey.value, now, rng);
    if tables.Err? {
      return Err(tables.error), order;
    }
    var header := v.conn.header;
    if header.Some? {
      header := Some(header.value.(salt := salt.value, memKib := DefaultMemKib, iters := DefaultIters,
                                   parallelism := DefaultParallelism));
    }
    // Commit.
    v.conn.items := tables.value.0;
    v.conn.catalog := Some(tables.value.1);
    v.conn.header := header;
    r := Ok(());
  }

  /** After a successful rotation every item reads back under the new key
      exactly as it did under the old one, the old key opens none of the
      re-sealed rows when the password changed, and a catalog that was in
      step with the items stays in step under the new key. */
  lemma RotationPreservesReads(items: map<string, ItemRow>, oldKey: Key, items': map<string, ItemRow>, newKey: Key,
                               now: int, entries: seq<CatalogEntry>)
    requires items.Keys == items'.Keys
    requires forall id :: id in items ==> Resealed(items[id], oldKey, items'[id], newKey, now)
    ensures forall id :: LoadItem(items', newKey, id) == LoadItem(items, oldKey, id)
    ensures newKey != oldKey ==> forall id :: id in items' ==> !Opens(items'[id].nonce, items'[id].ciphertext, oldKey)
    ensures InStep(entries, items, oldKey) ==> InStep(entries, items', newKey)
  {
    forall id ensures LoadItem(items', newKey, id) == LoadItem(items, oldKey, id) {
      ResealedReadsSame(items, oldKey, items', newKey, now, id);
    }
    forall id | id in items' && newKey != oldKey ensures !Opens(items'[id].nonce, items'[id].ciphertext, oldKey) {
      ResealedReadsSame(items, oldKey, items', newKey, now, id);
    }
    if InStep(entries, items, oldKey) {
      RekeyKeepsInStep(entries, items, oldKey, items', newKey);
    }
  }

  /** One component of a path, as `Path::components` yields them. */
  datatype Component = RootDir | CurDir | Named(name: string)

  /** The `/`-separated pieces of a path, empty ones included. */
  function SplitSlash(p: string): (parts: seq<string>)
    ensures |parts| >= 1
    ensures forall k :: 0 <= k < |parts| ==> '/' !in parts[k]
    decreases |p|
  {
    if p == [] then [[]]
    else
      var rest := SplitSlash(p[1..]);
      if p[0] == '/' then [[]] + rest
      else [[p[0]] + rest[0]] + rest[1..]
  }

  lemma {:induction false} SplitNoSlash(a: string)
    requires '/' !in a
    ensures SplitSlash(a) == [a]
    decreases |a|
  {
    if a != [] {
      SplitNoSlash(a[1..]);
      assert [a[0]] + a[1..] == a;
    }
  }

  /** Splitting stops at the first separator. */
  lemma {:induction false} SplitAt(a: string, b: string)
    requires '/' !in a
    ensures SplitSlash(a + "/" + b) == [a] + SplitSlash(b)
    decreases |a|
  {
    if a == [] {
      assert a + "/" + b == ['/'] + b;
      assert (a + "/" + b)[1..] == b;
    } else {
      assert (a + "/" + b)[1..] == a[1..] + "/" + b;
      SplitAt(a[1..], b);
      assert [a[0]] + a[1..] == a;
    }
  }

  /** The named components among pieces: empty pieces (from repeated or
      trailing separators) and `.` pieces are dropped. */
  function NamedParts(parts: seq<string>): (cs: seq<Component>)
    ensures forall k :: 0 <= k < |cs| ==> cs[k].Named? && cs[k].name != [] && cs[k].name != "."
  {
    if parts == [] then []
    else if parts[0] == [] || parts[0] == "." then NamedParts(parts[1..])
    else [Named(parts[0])] + NamedParts(parts[1..])
  }

  /** `Path::components` for a Unix path: a leading `/` is the root, a
      leading `.` piece of a relative path is kept, every other `.` piece and
      every empty piece is dropped. */
  function Components(p: string): seq<Component> {
    var parts := SplitSlash(p);
    if p != [] && p[0] == '/' then [RootDir] + NamedParts(parts)
    else if parts[0] == "." then [CurDir] + NamedParts(parts[1..])
    else NamedParts(parts)
  }

  /** `Path == Path`: equal component by component. */
  predicate SamePath(a: string, b: string) {
    Components(a) == Components(b)
  }

  /** The checks `backup_to_path` makes before copying: the live database
      must have a path, the destination must not be that path, and an
      existing destination is refused unless overwriting was asked for.
      Whether the destination exists is a parameter. */
  function BackupGuard(source: Option<string>, dest: string, overwrite: bool, destExists: bool): (r: Result<()>)
    ensures r.Ok? <==> source.Some? && !SamePath(dest, source.value) && (overwrite || !destExists)
    ensures source.None? ==> r == Err(NoSourcePath)
    ensures source.Some? && SamePath(dest, source.value) ==> r == Err(SameAsSource)
    ensures source.Some? && !SamePath(dest, source.value) && !overwrite && destExists ==> r == Err(DestinationExists)
  {
    if source.None? then Err(NoSourcePath)
    else if SamePath(dest, source.value) then Err(SameAsSource)
    else if !overwrite && destExists then Err(DestinationExists)
    else Ok(())
  }

  lemma {:induction false} NamedPartsAppend(x: seq<string>, y: seq<string>)
    ensures NamedParts(x + y) == NamedParts(x) + NamedParts(y)
    decreases |x|
  {
    if x == [] {
      assert x + y == y;
    } else {
      assert (x + y)[0] == x[0] && (x + y)[1..] == x[1..] + y;
      NamedPartsAppend(x[1..], y);
      if x[0] != [] && x[0] != "." {
        assert NamedParts(x + y) == [Named(x[0])] + (NamedParts(x[1..]) + NamedParts(y));
      }
    }
  }

  lemma {:induction false} SplitTrailing(p: string)
    ensures SplitSlash(p + "/") == SplitSlash(p) + [[]]
    decreases |p|
  {
    if p != [] {
      assert (p + "/")[1..] == p[1..] + "/";
      SplitTrailing(p[1..]);
    }
  }

  /** A doubled separator after the first piece does not change the path. */
  lemma SamePathDoubledSeparator(a: string, b: string)
    requires '/' !in a
    ensures SamePath(a + "/" + b, a + "//" + b)
  {
    assert a + "//" + b == a + "/" + ([] + "/" + b);
    SplitAt(a, b);
    SplitAt(a, [] + "/" + b);
    SplitAt([], b);
    var rest := SplitSlash(b);
    assert SplitSlash(a + "//" + b) == [a] + ([[]] + rest);
    NamedPartsAppend([a], rest);
    NamedPartsAppend([a], [[]] + rest);
    assert ([a] + rest)[1..] == rest && ([a] + ([[]] + rest))[1..] == [[]] + rest;
  }

  /** A `.` piece after the first piece does not change the path. */
  lemma SamePathDotPiece(a: string, b: string)
    requires '/' !in a
    ensures SamePath(a + "/" + b, a + "/./" + b)
  {
    assert a + "/./" + b == a + "/" + ("." + "/" + b);
    SplitAt(a, b);
    SplitAt(a, "." + "/" + b);
    SplitAt(".", b);
    var rest := SplitSlash(b);
    assert SplitSlash(a + "/./" + b) == [a] + (["."] + rest);
    NamedPartsAppend([a], rest);
    NamedPartsAppend([a], ["."] + rest);
    assert ([a] + rest)[1..] == rest && ([a] + (["."] + rest))[1..] == ["."] + rest;
  }

  /** A trailing separator does not change a non-empty path. */
  lemma SamePathTrailingSeparator(p: string)
    requires p != []
    ensures SamePath(p, p + "/")
  {
    SplitTrailing(p);
    var parts := SplitSlash(p);
    NamedPartsAppend(parts, [[]]);
    NamedPartsAppend(parts[1..], [[]]);
    assert (parts + [[]])[1..] == parts[1..] + [[]];
    assert (parts + [[]])[0] == parts[0];
    assert (p + "/")[0] == p[0];
  }

  /** The guard refuses the live file under another spelling: a doubled
      separator, a `.` piece or a trailing separator does not make a
      different path. */
  lemma BackupRefusesRespelledSource(a: string, b: string, overwrite: bool, destExists: bool)
    requires '/' !in a
    ensures BackupGuard(Some(a + "/" + b), a + "//" + b, overwrite, destExists) == Err(SameAsSource)
    ensures BackupGuard(Some(a + "/" + b), a + "/./" + b, overwrite, destExists) == Err(SameAsSource)
    ensures BackupGuard(Some(a + "/" + b), a + "/" + b + "/", overwrite, destExists) == Err(SameAsSource)
  {
    SamePathDoubledSeparator(a, b);
    SamePathDotPiece(a, b);
    SamePathTrailingSeparator(a + "/" + b);
  }

  /** The comparison is by spelling, not by file: a relative destination is
      never the same path as an absolute source, so only the existence check
      stands between it and the copy, even when it names the live file. */
  lemma BackupComparesSpelling(source: string, dest: string, overwrite: bool, destExists: bool)
    requires source != [] && source[0] == '/'
    requires dest == [] || dest[0] != '/'
    ensures BackupGuard(Some(source), dest, overwrite, destExists)
      == if overwrite || !destExists then Ok(()) else Err(DestinationExists)
  {
    var cs := Components(dest);
    assert Components(source)[0] == RootDir;
    assert cs == [] || cs[0] != RootDir by {
      var parts := SplitSlash(dest);
      if parts[0] != "." {
        assert cs == NamedParts(parts);
      }
    }
  }
}
