/** The two records the vault encrypts, and their serialised form.

    A catalog blob holds the JSON array of all catalog entries; an item blob
    holds the JSON object of one item's four fields. JSON syntax is not
    modelled: a plaintext is one of the canonical values the vault writes, so
    serialising and then parsing gives the value back by construction, and a
    value of the other shape does not parse. */
module Records {
  import opened Common

  /** One row of the catalog index (src/catalog.rs:8-13). */
  datatype CatalogEntry = CatalogEntry(id: string, title: string, updatedAt: int)

  /** The decrypted fields of one item (src/items.rs:9-15). */
  datatype ItemPlain = ItemPlain(title: string, username: string, password: string, notes: string)

  /** What a blob decrypts to: no bytes at all, the JSON encoding of a list of
      catalog entries (`[]` for the empty catalog), the JSON encoding of an
      item, or bytes that are neither. */
  datatype Plaintext =
    | NoBytes
    | EntryList(entries: seq<CatalogEntry>)
    | ItemObject(item: ItemPlain)
    | Unparsable

  /** `serde_json::from_slice::<Vec<CatalogEntry>>`. */
  function ParseEntries(pt: Plaintext): (r: Result<seq<CatalogEntry>>)
    ensures r.Ok? <==> pt.EntryList?
    ensures r.Ok? ==> pt == EntryList(r.value)
  {
    match pt
    case EntryList(es) => Ok(es)
    case _ => Err(DecodeFailed)
  }

  /** `serde_json::from_slice::<ItemPlain>`. */
  function ParseItem(pt: Plaintext): (r: Result<ItemPlain>)
    ensures r.Ok? <==> pt.ItemObject?
    ensures r.Ok? ==> pt == ItemObject(r.value)
  {
    match pt
    case ItemObject(item) => Ok(item)
    case _ => Err(DecodeFailed)
  }
}
