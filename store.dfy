/** The persisted vault file and the open session on it.

    The file holds three tables: a singleton header, a singleton catalog row
    and one row per item. SQL text, the schema DDL and page-level storage are
    not modelled: each table is a field of the connection, a missing
    singleton row is `None`, and the items table is a map keyed by the
    item's id. */
module Store {
  import opened Common
  import opened Crypto

  /** The header row: format version, KDF salt and Argon2 cost parameters
      (src/db.rs:9-16). */
  datatype Header = Header(formatVersion: int, salt: seq<byte>, memKib: int, iters: int, parallelism: int)

  /** The catalog row: one encrypted blob of the whole index (src/db.rs:18-23). */
  datatype CatalogRow = CatalogRow(nonce: seq<byte>, ciphertext: Ciphertext, updatedAt: int)

  /** One item row (src/db.rs:25-31). */
  datatype ItemRow = ItemRow(nonce: seq<byte>, ciphertext: Ciphertext, createdAt: int, updatedAt: int)

  /** A connection to the vault file: its path, if the database has one, and
      the current contents of its three tables. */
  class Connection {
    const path: Option<string>
    var header: Option<Header>
    var catalog: Option<CatalogRow>
    var items: map<string, ItemRow>

    constructor (path: Option<string>, header: Option<Header>, catalog: Option<CatalogRow>, items: map<string, ItemRow>)
      ensures this.path == path && this.header == header && this.catalog == catalog && this.items == items
    {
      this.path := path;
      this.header := header;
      this.catalog := catalog;
      this.items := items;
    }

    /** `UPDATE items SET nonce = ?, ciphertext = ?, updated_at = ? WHERE
        id = ?`: rewrites the sealed blob and update time of one item row,
        keeping its creation time, and reports how many rows it changed. */
    method UpdateItem(id: string, nonce: seq<byte>, ct: Ciphertext, now: int) returns (rows: nat)
      modifies this
      ensures header == old(header) && catalog == old(catalog)
      ensures id !in old(items) ==> rows == 0 && items == old(items)
      ensures id in old(items) ==>
        rows == 1 && items == old(items)[id := ItemRow(nonce, ct, old(items)[id].createdAt, now)]
    {
      if id in items {
        items := items[id := items[id].(nonce := nonce, ciphertext := ct, updatedAt := now)];
        rows := 1;
      } else {
        rows := 0;
      }
    }
  }

  /** An open session: the connection and the key derived when it was opened
      (src/db.rs:34-37). The key does not change for the session's lifetime. */
  class Vault {
    const conn: Connection
    const key: Key

    constructor (conn: Connection, key: Key)
      ensures this.conn == conn && this.key == key
    {
      this.conn := conn;
      this.key := key;
    }
  }
}
