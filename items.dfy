/** The item store: one encrypted row per item, kept in step with the
    catalog.

    Each mutation of the items table is followed by loading the catalog,
    updating it and saving it again. The two writes are separate statements
    outside any transaction, so a failure after the first one leaves the item
    table changed and the catalog as it was; the contracts below say so. */
module Items {
  import opened Common
  import opened Records
  import opened Crypto
  import opened Store
  import opened Sorting
  import opened CatalogOrder
  import opened Catalog
  import opened Util

  /** `load_item`: the fields of item `id` in the item table. The row must
      exist, its nonce must be 12 bytes, its blob must authenticate under
      `key` and decode as an item. */
  function LoadItem(items: map<string, ItemRow>, key: Key, id: string): (r: Result<ItemPlain>)
    ensures id !in items ==> r == Err(ItemNotFound)
    ensures id in items && |items[id].nonce| != NonceLen ==> r == Err(BadNonceLength(|items[id].nonce|))
    ensures r.Ok? <==>
      && id in items && |items[id].nonce| == NonceLen
      && items[id].ciphertext.Sealed? && items[id].ciphertext.key == key
      && items[id].ciphertext.nonce == items[id].nonce
      && items[id].ciphertext.plaintext.ItemObject?
    ensures r.Ok? ==> items[id].ciphertext.plaintext == ItemObject(r.value)
  {
    if id !in items then Err(ItemNotFound)
    else
      var row := items[id];
      if |row.nonce| != NonceLen then Err(BadNonceLength(|row.nonce|))
      else
        var pt :- Decrypt(key, row.nonce, row.ciphertext);
        ParseItem(pt)
  }

  /** The row `add_item_interactive` and `edit_item` write for `item`. */
  function SealedItem(key: Key, nonce: seq<byte>, item: ItemPlain, createdAt: int, updatedAt: int): ItemRow {
    ItemRow(nonce, Sealed(key, nonce, ItemObject(item)), createdAt, updatedAt)
  }

  /** No two catalog entries share an id. */
  predicate UniqueIds(s: seq<CatalogEntry>) {
    forall i, j :: 0 <= i < j < |s| ==> s[i].id != s[j].id
  }

  /** The catalog and the item table agree: ids are listed once, every
      listed id names an item that reads back under `key` with the listed
      title, and every item is listed. */
  predicate InStep(entries: seq<CatalogEntry>, items: map<string, ItemRow>, key: Key) {
    && UniqueIds(entries)
    && (forall e :: e in entries ==>
          LoadItem(items, key, e.id).Ok? && LoadItem(items, key, e.id).value.title == e.title)
    && (forall id :: id in items ==> exists e :: e in entries && e.id == id)
  }

  /** The vault's catalog reads back and agrees with its item table. */
  predicate VaultInStep(v: Vault)
    reads v.conn
  {
    LoadCatalog(v).Ok? && InStep(LoadCatalog(v).value, v.conn.items, v.key)
  }

  /** The position of the first entry with this id, or the length of the
      catalog when there is none. */
  function FirstWithId(entries: seq<CatalogEntry>, id: string): (i: nat)
    ensures i <= |entries|
    ensures forall k :: 0 <= k < i ==> entries[k].id != id
    ensures i < |entries| ==> entries[i].id == id
    decreases |entries|
  {
    if entries == [] then 0
    else if entries[0].id == id then 0
    else 1 + FirstWithId(entries[1..], id)
  }

  /** The catalog after recording that item `id` has `title` as of `now`:
      the first entry with that id takes the new title and time; when there
      is none, a new entry is appended. */
  function Touched(entries: seq<CatalogEntry>, id: string, title: string, now: int): seq<CatalogEntry> {
    var i := FirstWithId(entries, id);
    if i < |entries| then entries[i := entries[i].(title := title, updatedAt := now)]
    else entries + [CatalogEntry(id, title, now)]
  }

  /** The `iter_mut().find(..)` then update-or-push step shared by
      `add_item_interactive` and `edit_item`. */
  method Touch(entries: seq<CatalogEntry>, id: string, title: string, now: int) returns (out: seq<CatalogEntry>)
    ensures out == Touched(entries, id, title, now)
  {
    var i := 0;
    while i < |entries| && entries[i].id != id
      invariant i <= |entries|
      invariant forall k :: 0 <= k < i ==> entries[k].id != id
    {
      i := i + 1;
    }
    assert i == FirstWithId(entries, id);
    if i < |entries| {
      out := entries[i := entries[i].(title := title, updatedAt := now)];
    } else {
      out := entries + [CatalogEntry(id, title, now)];
    }
  }

  /** Touching rewrites the first entry with the id in place, or appends a
      new entry when there is none. */
  lemma TouchedShape(entries: seq<CatalogEntry>, id: string, title: string, now: int)
    ensures var i := FirstWithId(entries, id);
      i < |entries| ==>
        Touched(entries, id, title, now) == entries[..i] + [CatalogEntry(id, title, now)] + entries[i + 1..]
    ensures FirstWithId(entries, id) == |entries| ==>
      Touched(entries, id, title, now) == entries + [CatalogEntry(id, title, now)]
  {
    var i := FirstWithId(entries, id);
    if i < |entries| {
      var entry := CatalogEntry(id, title, now);
      var out := Touched(entries, id, title, now);
      assert out == entries[i := entry] by {
        assert entries[i].(title := title, updatedAt := now) == entry;
      }
      var rhs := entries[..i] + [entry] + entries[i + 1..];
      assert |out| == |rhs|;
      forall k | 0 <= k < |out| ensures out[k] == rhs[k] {
        if k < i {
          assert rhs[k] == entries[k];
        } else if k == i {
          assert rhs[k] == entry;
        } else {
          assert rhs[k] == entries[i + 1..][k - i - 1];
        }
      }
    }
  }

  /** With unique ids, an entry that is replaced leaves no other entry with
      its id behind. */
  lemma TouchedNothingElse(entries: seq<CatalogEntry>, id: string, title: string, now: int)
    requires UniqueIds(entries) && FirstWithId(entries, id) < |entries|
    ensures forall e :: e in Touched(entries, id, title, now) ==>
      e == CatalogEntry(id, title, now) || (e in entries && e.id != id)
  {
    var i := FirstWithId(entries, id);
    TouchedShape(entries, id, title, now);
    var before, after := entries[..i], entries[i + 1..];
    forall e | e in Touched(entries, id, title, now) ensures e == CatalogEntry(id, title, now) || (e in entries && e.id != id) {
      if e in before {
        var k :| 0 <= k < |before| && before[k] == e;
        assert entries[k] == e;
      } else if e in after {
        var k :| 0 <= k < |after| && after[k] == e;
        assert entries[i + 1 + k] == e;
      }
    }
  }

  /** After touching, the catalog holds the entry `(id, title, now)` and
      every entry with another id; it grows by one entry exactly when the id
      was not listed. In a catalog with unique ids, every entry of the result
      is the new one or an old entry with another id. */
  lemma TouchedMembers(entries: seq<CatalogEntry>, id: string, title: string, now: int)
    ensures CatalogEntry(id, title, now) in Touched(entries, id, title, now)
    ensures forall e :: e in entries && e.id != id ==> e in Touched(entries, id, title, now)
    ensures |Touched(entries, id, title, now)| == |entries| + (if exists e :: e in entries && e.id == id then 0 else 1)
    ensures UniqueIds(entries) ==> forall e :: e in Touched(entries, id, title, now) ==>
      e == CatalogEntry(id, title, now) || (e in entries && e.id != id)
  {
    var i := FirstWithId(entries, id);
    var entry := CatalogEntry(id, title, now);
    TouchedShape(entries, id, title, now);
    var out := Touched(entries, id, title, now);
    if i < |entries| {
      var before, after := entries[..i], entries[i + 1..];
      assert entries == before + [entries[i]] + after;
      assert out == before + [entry] + after;
      assert entries[i] in entries;
      forall e | e in entries && e.id != id ensures e in out {
        assert e in before || e in after;
      }
      if UniqueIds(entries) {
        TouchedNothingElse(entries, id, title, now);
      }
    } else {
      assert !exists e :: e in entries && e.id == id by {
        forall e | e in entries ensures e.id != id {
          var k :| 0 <= k < |entries| && entries[k] == e;
        }
      }
      assert out[|entries|] == entry;
    }
  }

  /** Touching keeps ids unique. */
  lemma TouchedUnique(entries: seq<CatalogEntry>, id: string, title: string, now: int)
    requires UniqueIds(entries)
    ensures UniqueIds(Touched(entries, id, title, now))
  {
    var i := FirstWithId(entries, id);
    var out := Touched(entries, id, title, now);
    if i < |entries| {
      assert forall k :: 0 <= k < |entries| ==> out[k].id == entries[k].id;
    } else {
      assert forall k :: 0 <= k < |entries| ==> out[k] == entries[k];
    }
  }

  /** Touching leaves the entries with other ids as they were, in their
      order. */
  lemma TouchedKeepsOthers(entries: seq<CatalogEntry>, id: string, title: string, now: int)
    ensures Filter(Kept(IdIsNot(id)), Touched(entries, id, title, now)) == Filter(Kept(IdIsNot(id)), entries)
  {
    var i := FirstWithId(entries, id);
    if i < |entries| {
      FilterReplace(Kept(IdIsNot(id)), entries, i, entries[i].(title := title, updatedAt := now));
    } else {
      FilterSnocRejected(Kept(IdIsNot(id)), entries, CatalogEntry(id, title, now));
    }
  }

  /** Writing an item row sealed under the vault key, then touching its
      catalog entry with the item's title, keeps the catalog and the item
      table in step, whether the id was new or already listed. */
  lemma UpsertKeepsInStep(entries: seq<CatalogEntry>, items: map<string, ItemRow>, key: Key,
                          id: string, nonce: seq<byte>, item: ItemPlain, createdAt: int, now: int)
    requires InStep(entries, items, key)
    requires |nonce| == NonceLen
    ensures InStep(Touched(entries, id, item.title, now), items[id := SealedItem(key, nonce, item, createdAt, now)], key)
  {
    var out := Touched(entries, id, item.title, now);
    var items' := items[id := SealedItem(key, nonce, item, createdAt, now)];
    TouchedMembers(entries, id, item.title, now);
    TouchedUnique(entries, id, item.title, now);
    forall e | e in out
      ensures LoadItem(items', key, e.id).Ok? && LoadItem(items', key, e.id).value.title == e.title
    {
      if e.id != id {
        assert items'[e.id] == items[e.id];
      }
    }
    forall x | x in items' ensures exists e :: e in out && e.id == x {
      if x == id {
        assert CatalogEntry(id, item.title, now) in out;
      } else {
        var e :| e in entries && e.id == x;
        assert e in out;
      }
    }
  }

  /** Filtering keeps ids unique. */
  lemma {:induction false} FilterUniqueIds(keep: CatalogEntry -> bool, s: seq<CatalogEntry>)
    requires UniqueIds(s)
    ensures UniqueIds(Filter(keep, s))
    decreases |s|
  {
    if |s| > 0 {
      var init, last := s[..|s| - 1], s[|s| - 1];
      FilterUniqueIds(keep, init);
      FilterMembers(keep, init);
      var f := Filter(keep, init);
      if keep(last) {
        forall k | 0 <= k < |f| ensures f[k].id != last.id {
          assert f[k] in init;
          var m :| 0 <= m < |init| && init[m] == f[k];
          assert s[m] == f[k];
        }
        var g := f + [last];
        assert Filter(keep, s) == g;
        forall i, j | 0 <= i < j < |g| ensures g[i].id != g[j].id {
          if j < |f| {
            assert g[i] == f[i] && g[j] == f[j];
          }
        }
      } else {
        assert Filter(keep, s) == f;
      }
    }
  }

  /** Removing an item row and its catalog entries keeps the catalog and the
      item table in step. */
  lemma DeleteKeepsInStep(entries: seq<CatalogEntry>, items: map<string, ItemRow>, key: Key, id: string)
    requires InStep(entries, items, key)
    ensures InStep(Filter(Kept(IdIsNot(id)), entries), items - {id}, key)
  {
    var keep := Kept(IdIsNot(id));
    var out := Filter(keep, entries);
    var items' := items - {id};
    FilterUniqueIds(keep, entries);
    FilterMembers(keep, entries);
    forall e | e in out
      ensures LoadItem(items', key, e.id).Ok? && LoadItem(items', key, e.id).value.title == e.title
    {
      assert items'[e.id] == items[e.id];
    }
    forall x | x in items' ensures exists e :: e in out && e.id == x {
      var e :| e in entries && e.id == x;
      assert e in out;
    }
  }

  /** The catalog half of `add_item_interactive` and `edit_item`: loads the
      catalog, touches the entry of `id` with `title` and `now`, and saves
      it. The item table is not touched. */
  method TouchCatalog(v: Vault, id: string, title: string, now: int, rng: Entropy) returns (r: Result<()>)
    modifies v.conn, rng
    ensures v.conn.header == old(v.conn.header) && v.conn.items == old(v.conn.items)
    ensures old(LoadCatalog(v)).Err? ==> r == Err(old(LoadCatalog(v)).error) && rng.pool == old(rng.pool)
    ensures old(LoadCatalog(v)).Ok? && |old(rng.pool)| < NonceLen ==> r == Err(RandomUnavailable)
    ensures r.Err? ==> v.conn.catalog == old(v.conn.catalog)
    ensures r.Ok? ==> old(LoadCatalog(v)).Ok? && LoadCatalog(v) == Ok(Touched(old(LoadCatalog(v)).value, id, title, now))
    ensures old(LoadCatalog(v)).Ok? && NonceLen <= |old(rng.pool)| ==> r.Ok?
  {
    var entries :- LoadCatalog(v);
    var updated := Touch(entries, id, title, now);
    var saved :- SaveCatalog(v, updated, now, rng);
    r := Ok(());
  }

  /** The state changes of `add_item_interactive`, with the prompted fields
      as parameters: seals the item under a fresh nonce, draws a new id,
      inserts the row (refused when the id is taken), then loads the
      catalog, touches the id's entry and saves it. Returns the new id. */
  method AddItem(v: Vault, title: string, username: string, password: string, notes: string,
                 now: int, rng: Entropy) returns (r: Result<string>)
    modifies v.conn, rng
    ensures v.conn.header == old(v.conn.header)
    ensures |old(rng.pool)| < NonceLen + 16 ==>
      r == Err(RandomUnavailable) && v.conn.items == old(v.conn.items) && v.conn.catalog == old(v.conn.catalog)
    ensures NonceLen + 16 <= |old(rng.pool)| && HexId(old(rng.pool)[NonceLen..NonceLen + 16]) in old(v.conn.items) ==>
      r == Err(DuplicateId) && v.conn.items == old(v.conn.items) && v.conn.catalog == old(v.conn.catalog)
    ensures NonceLen + 16 <= |old(rng.pool)| && HexId(old(rng.pool)[NonceLen..NonceLen + 16]) !in old(v.conn.items) ==>
      v.conn.items == old(v.conn.items)[HexId(old(rng.pool)[NonceLen..NonceLen + 16]) :=
        SealedItem(v.key, old(rng.pool)[..NonceLen], ItemPlain(title, username, password, notes), now, now)]
    ensures (NonceLen + 16 <= |old(rng.pool)| && HexId(old(rng.pool)[NonceLen..NonceLen + 16]) !in old(v.conn.items)
      && old(LoadCatalog(v)).Err?) ==> r == Err(old(LoadCatalog(v)).error)
    ensures r.Err? ==> v.conn.catalog == old(v.conn.catalog)
    ensures r.Ok? ==> r.value == HexId(old(rng.pool)[NonceLen..NonceLen + 16]) && r.value !in old(v.conn.items)
    ensures r.Ok? ==> LoadItem(v.conn.items, v.key, r.value) == Ok(ItemPlain(title, username, password, notes))
    ensures r.Ok? ==> old(LoadCatalog(v)).Ok? && LoadCatalog(v) == Ok(Touched(old(LoadCatalog(v)).value, r.value, title, now))
    ensures (NonceLen + 16 <= |old(rng.pool)| < 2 * NonceLen + 16
      && HexId(old(rng.pool)[NonceLen..NonceLen + 16]) !in old(v.conn.items) && old(LoadCatalog(v)).Ok?)
      ==> r == Err(RandomUnavailable)
    ensures (2 * NonceLen + 16 <= |old(rng.pool)|
      && HexId(old(rng.pool)[NonceLen..NonceLen + 16]) !in old(v.conn.items) && old(LoadCatalog(v)).Ok?)
      ==> r.Ok?
    ensures r.Ok? && old(VaultInStep(v)) ==> VaultInStep(v)
  {
    ghost var pool := rng.pool;
    var item := ItemPlain(title, username, password, notes);
    var sealed :- EncryptBlob(v.key, ItemObject(item), rng);
    assert rng.pool == pool[NonceLen..];
    var id :- NewId(rng);
    assert pool[NonceLen..][..16] == pool[NonceLen..NonceLen + 16];
    if id in v.conn.items {
      return Err(DuplicateId);
    }
    ghost var before := v.conn.items;
    v.conn.items := v.conn.items[id := ItemRow(sealed.1, sealed.0, now, now)];
    var saved :- TouchCatalog(v, id, title, now, rng);
    if old(VaultInStep(v)) {
      UpsertKeepsInStep(old(LoadCatalog(v)).value, before, v.key, id, sealed.1, item, now, now);
    }
    r := Ok(id);
  }

  /** The fields after an edit: a blank answer keeps the current title,
      username or notes, any other answer replaces them trimmed; an empty
      password answer keeps the current password, any other replaces it as
      typed. */
  function ApplyEdits(item: ItemPlain, titleLine: string, usernameLine: string, passwordLine: string,
                      notesLine: string): (edited: ItemPlain)
    ensures edited.title == (if Trim(titleLine) == [] then item.title else Trim(titleLine))
    ensures edited.username == (if Trim(usernameLine) == [] then item.username else Trim(usernameLine))
    ensures edited.notes == (if Trim(notesLine) == [] then item.notes else Trim(notesLine))
    ensures passwordLine == [] ==> edited.password == item.password
    ensures passwordLine != [] ==> edited.password == passwordLine
  {
    var newTitle := WithDefault(titleLine, item.title);
    var newUsername := WithDefault(usernameLine, item.username);
    var newPassword := OptionalPassword(passwordLine);
    var newNotes := WithDefault(notesLine, item.notes);
    var withPassword := if newPassword.Some? then item.(password := newPassword.value) else item;
    withPassword.(title := newTitle, username := newUsername, notes := newNotes)
  }

  /** The row half of `edit_item`: seals `item` under a fresh nonce and
      updates the row of `id` with it, keeping the row's creation time. An
      update that changes no row is an error. */
  method RewriteItem(v: Vault, id: string, item: ItemPlain, now: int, rng: Entropy) returns (r: Result<()>)
    modifies v.conn, rng
    ensures v.conn.header == old(v.conn.header) && v.conn.catalog == old(v.conn.catalog)
    ensures |old(rng.pool)| < NonceLen ==> r == Err(RandomUnavailable) && rng.pool == old(rng.pool)
    ensures NonceLen <= |old(rng.pool)| && id !in old(v.conn.items) ==> r == Err(ItemDisappeared)
    ensures r.Err? ==> v.conn.items == old(v.conn.items)
    ensures r.Ok? ==>
      && NonceLen <= |old(rng.pool)| && id in old(v.conn.items)
      && v.conn.items == old(v.conn.items)[id := SealedItem(v.key, old(rng.pool)[..NonceLen], item, old(v.conn.items)[id].createdAt, now)]
      && rng.pool == old(rng.pool)[NonceLen..]
    ensures NonceLen <= |old(rng.pool)| && id in old(v.conn.items) ==> r.Ok?
  {
    var sealed :- EncryptBlob(v.key, ItemObject(item), rng);
    var rows := v.conn.UpdateItem(id, sealed.1, sealed.0, now);
    if rows == 0 {
      return Err(ItemDisappeared);
    }
    r := Ok(());
  }

  /** The writes of `edit_item` once the edited item is known: the row is
      re-sealed under a fresh nonce, keeping its creation time, and then the
      catalog entry is touched with the new title and the catalog saved. */
  method StoreEdit(v: Vault, id: string, item: ItemPlain, now: int, rng: Entropy) returns (r: Result<()>)
    requires id in v.conn.items
    modifies v.conn, rng
    ensures v.conn.header == old(v.conn.header)
    ensures r.Err? ==> v.conn.catalog == old(v.conn.catalog)
    ensures |old(rng.pool)| < NonceLen ==> r == Err(RandomUnavailable) && v.conn.items == old(v.conn.items)
    ensures NonceLen <= |old(rng.pool)| ==>
      v.conn.items == old(v.conn.items)[id := SealedItem(v.key, old(rng.pool)[..NonceLen], item,
                                                         old(v.conn.items)[id].createdAt, now)]
    ensures NonceLen <= |old(rng.pool)| && old(LoadCatalog(v)).Err? ==> r == Err(old(LoadCatalog(v)).error)
    ensures NonceLen <= |old(rng.pool)| < 2 * NonceLen && old(LoadCatalog(v)).Ok? ==> r == Err(RandomUnavailable)
    ensures 2 * NonceLen <= |old(rng.pool)| && old(LoadCatalog(v)).Ok? ==> r.Ok?
    ensures r.Ok? ==>
      && NonceLen <= |old(rng.pool)| && old(LoadCatalog(v)).Ok?
      && LoadCatalog(v) == Ok(Touched(old(LoadCatalog(v)).value, id, item.title, now))
    ensures r.Ok? ==> LoadItem(v.conn.items, v.key, id) == Ok(item)
    ensures r.Ok? && old(VaultInStep(v)) ==> VaultInStep(v)
  {
    ghost var before := v.conn.items;
    ghost var pool := rng.pool;
    var written :- RewriteItem(v, id, item, now, rng);
    ghost var nonce := pool[..NonceLen];
    ghost var after := v.conn.items;
    assert after == before[id := SealedItem(v.key, nonce, item, before[id].createdAt, now)];
    assert LoadCatalog(v) == old(LoadCatalog(v)) && |rng.pool| == |pool| - NonceLen;
    var saved :- TouchCatalog(v, id, item.title, now, rng);
    assert v.conn.items == after;
    assert old(VaultInStep(v)) ==> VaultInStep(v) by {
      if old(VaultInStep(v)) {
        UpsertKeepsInStep(old(LoadCatalog(v)).value, before, v.key, id, nonce, item, before[id].createdAt, now);
      }
    }
    r := Ok(());
  }

  /** The state changes of `edit_item`, with the answers to its four prompts
      as parameters: the item is read, edited by `ApplyEdits`, re-sealed
      under a fresh nonce and its row updated, keeping its creation time;
      then the catalog entry is touched with the new title (re-added when
      missing) and the catalog saved. */
  method EditItem(v: Vault, id: string, titleLine: string, usernameLine: string, passwordLine: string,
                  notesLine: string, now: int, rng: Entropy) returns (r: Result<()>)
    modifies v.conn, rng
    ensures v.conn.header == old(v.conn.header)
    ensures old(LoadItem(v.conn.items, v.key, id)).Err? ==>
      r == Err(old(LoadItem(v.conn.items, v.key, id)).error)
      && v.conn.items == old(v.conn.items) && v.conn.catalog == old(v.conn.catalog) && rng.pool == old(rng.pool)
    ensures r.Err? ==> v.conn.catalog == old(v.conn.catalog)
    ensures old(LoadItem(v.conn.items, v.key, id)).Ok? && |old(rng.pool)| < NonceLen ==>
      r == Err(RandomUnavailable) && v.conn.items == old(v.conn.items)
    ensures old(LoadItem(v.conn.items, v.key, id)).Ok? && NonceLen <= |old(rng.pool)| ==>
      v.conn.items == old(v.conn.items)[id := SealedItem(
        v.key, old(rng.pool)[..NonceLen],
        ApplyEdits(old(LoadItem(v.conn.items, v.key, id)).value, titleLine, usernameLine, passwordLine, notesLine),
        old(v.conn.items)[id].createdAt, now)]
    ensures old(LoadItem(v.conn.items, v.key, id)).Ok? && NonceLen <= |old(rng.pool)| && old(LoadCatalog(v)).Err? ==>
      r == Err(old(LoadCatalog(v)).error)
    ensures (old(LoadItem(v.conn.items, v.key, id)).Ok? && NonceLen <= |old(rng.pool)| < 2 * NonceLen
      && old(LoadCatalog(v)).Ok?) ==> r == Err(RandomUnavailable)
    ensures old(LoadItem(v.conn.items, v.key, id)).Ok? && 2 * NonceLen <= |old(rng.pool)| && old(LoadCatalog(v)).Ok? ==>
      r.Ok?
    ensures r.Ok? ==>
      && old(LoadItem(v.conn.items, v.key, id)).Ok? && NonceLen <= |old(rng.pool)|
      && v.conn.items == old(v.conn.items)[id := SealedItem(
           v.key, old(rng.pool)[..NonceLen],
           ApplyEdits(old(LoadItem(v.conn.items, v.key, id)).value, titleLine, usernameLine, passwordLine, notesLine),
           old(v.conn.items)[id].createdAt, now)]
    ensures r.Ok? ==>
      LoadItem(v.conn.items, v.key, id) ==
      Ok(ApplyEdits(old(LoadItem(v.conn.items, v.key, id)).value, titleLine, usernameLine, passwordLine, notesLine))
    ensures r.Ok? ==> old(LoadCatalog(v)).Ok? && LoadCatalog(v) == Ok(Touched(old(LoadCatalog(v)).value, id,
      ApplyEdits(old(LoadItem(v.conn.items, v.key, id)).value, titleLine, usernameLine, passwordLine, notesLine).title, now))
    ensures r.Ok? && old(VaultInStep(v)) ==> VaultInStep(v)
  {
    var current :- LoadItem(v.conn.items, v.key, id);
    var item := ApplyEdits(current, titleLine, usernameLine, passwordLine, notesLine);
    r := StoreEdit(v, id, item, now, rng);
  }


  /** `delete_item`: an id with no row is not an error and changes nothing.
      Otherwise the row is deleted, then every catalog entry with that id is
      dropped by `retain` on the loaded catalog, and the catalog saved. */
  method DeleteItem(v: Vault, id: string, now: int, rng: Entropy) returns (r: Result<()>)
    modifies v.conn, rng
    ensures v.conn.header == old(v.conn.header)
    ensures id !in old(v.conn.items) ==>
      r == Ok(()) && v.conn.items == old(v.conn.items) && v.conn.catalog == old(v.conn.catalog) && rng.pool == old(rng.pool)
    ensures id in old(v.conn.items) ==> v.conn.items == old(v.conn.items) - {id}
    ensures id in old(v.conn.items) && old(LoadCatalog(v)).Err? ==> r == Err(old(LoadCatalog(v)).error)
    ensures r.Err? ==> v.conn.catalog == old(v.conn.catalog)
    ensures r.Ok? && id in old(v.conn.items) ==>
      old(LoadCatalog(v)).Ok? && LoadCatalog(v) == Ok(Filter(Kept(IdIsNot(id)), old(LoadCatalog(v)).value))
    ensures id in old(v.conn.items) && old(LoadCatalog(v)).Ok? && NonceLen <= |old(rng.pool)| ==> r.Ok?
    ensures id in old(v.conn.items) && old(LoadCatalog(v)).Ok? && |old(rng.pool)| < NonceLen ==> r == Err(RandomUnavailable)
    ensures r.Ok? && old(VaultInStep(v)) ==> VaultInStep(v)
  {
    if id !in v.conn.items {
      return Ok(());
    }
    ghost var before := v.conn.items;
    v.conn.items := v.conn.items - {id};
    var entries :- LoadCatalog(v);
    var a := new CatalogEntry[|entries|](i requires 0 <= i < |entries| => entries[i]);
    assert a[..a.Length] == entries;
    var len := RetainInPlace(Kept(IdIsNot(id)), a, a.Length);
    var saved :- SaveCatalog(v, a[..len], now, rng);
    if old(VaultInStep(v)) {
      DeleteKeepsInStep(entries, before, v.key, id);
    }
    r := Ok(());
  }

  /** After a delete, no catalog entry carries the id, and every other entry
      is still there. */
  lemma DeleteRemovesEntry(entries: seq<CatalogEntry>, id: string)
    ensures forall e :: e in Filter(Kept(IdIsNot(id)), entries) <==> e in entries && e.id != id
  {
    FilterMembers(Kept(IdIsNot(id)), entries);
  }
}
