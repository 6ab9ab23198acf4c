/** The encrypted catalog: one sealed list of `{id, title, updatedAt}` entries
    kept in the vault's catalog row, and the read-only views computed from
    it (the sorted listing, selector resolution and title search). */
module Catalog {
  import opened Common
  import opened Records
  import opened Crypto
  import opened Store
  import opened Sorting
  import opened CatalogOrder

  /** The catalog row that stores `entries` sealed under `key` with `nonce`. */
  function SealedCatalog(key: Key, nonce: seq<byte>, entries: seq<CatalogEntry>, now: int): CatalogRow {
    CatalogRow(nonce, Sealed(key, nonce, EntryList(entries)), now)
  }

  /** Reads the entries out of a catalog row: the nonce must be 12 bytes, the
      blob must authenticate under `key`, and an empty plaintext is the empty
      catalog. */
  function OpenCatalogRow(row: CatalogRow, key: Key): (r: Result<seq<CatalogEntry>>)
    ensures |row.nonce| != NonceLen ==> r == Err(BadNonceLength(|row.nonce|))
    ensures r.Ok? ==> row.ciphertext.Sealed? && row.ciphertext.key == key && row.ciphertext.nonce == row.nonce
    ensures r.Ok? && row.ciphertext.plaintext == NoBytes ==> r.value == []
    ensures |row.nonce| == NonceLen && row.ciphertext == Sealed(key, row.nonce, NoBytes) ==> r == Ok([])
  {
    if |row.nonce| != NonceLen then Err(BadNonceLength(|row.nonce|))
    else
      var pt :- Decrypt(key, row.nonce, row.ciphertext);
      if pt == NoBytes then Ok([]) else ParseEntries(pt)
  }

  /** `load_catalog`: the entries of the vault's catalog row, or why they
      cannot be read. */
  function LoadCatalog(v: Vault): (r: Result<seq<CatalogEntry>>)
    reads v.conn
    ensures v.conn.catalog.None? ==> r == Err(NoRow)
    ensures v.conn.catalog.Some? ==> r == OpenCatalogRow(v.conn.catalog.value, v.key)
  {
    match v.conn.catalog
    case None => Err(NoRow)
    case Some(row) => OpenCatalogRow(row, v.key)
  }

  /** A row written by `save_catalog` reads back as the entries it was given,
      and under any other key fails to authenticate. */
  lemma SaveOpenRoundTrip(key: Key, other: Key, nonce: seq<byte>, entries: seq<CatalogEntry>, now: int)
    requires |nonce| == NonceLen
    ensures OpenCatalogRow(SealedCatalog(key, nonce, entries, now), key) == Ok(entries)
    ensures other != key ==> OpenCatalogRow(SealedCatalog(key, nonce, entries, now), other) == Err(AuthenticationFailed)
  {
  }

  /** `ensure_empty_catalog`: when the vault has no catalog row, inserts one
      holding the empty list; otherwise changes nothing. */
  method EnsureEmptyCatalog(conn: Connection, key: Key, now: int, rng: Entropy) returns (r: Result<()>)
    modifies conn, rng
    ensures conn.header == old(conn.header) && conn.items == old(conn.items)
    ensures old(conn.catalog).Some? ==>
      r == Ok(()) && conn.catalog == old(conn.catalog) && rng.pool == old(rng.pool)
    ensures old(conn.catalog).None? && |old(rng.pool)| < NonceLen ==>
      r == Err(RandomUnavailable) && conn.catalog == old(conn.catalog) && rng.pool == old(rng.pool)
    ensures old(conn.catalog).None? && NonceLen <= |old(rng.pool)| ==>
      r == Ok(()) && rng.pool == old(rng.pool)[NonceLen..]
      && conn.catalog == Some(SealedCatalog(key, old(rng.pool)[..NonceLen], [], now))
    ensures r.Ok? ==> conn.catalog.Some?
    ensures r.Ok? && old(conn.catalog).None? ==> OpenCatalogRow(conn.catalog.value, key) == Ok([])
  {
    if conn.catalog.Some? {
      return Ok(());
    }
    var sealed :- EncryptBlob(key, EntryList([]), rng);
    conn.catalog := Some(CatalogRow(sealed.1, sealed.0, now));
    r := Ok(());
  }

  /** `save_catalog`: seals `entries` under the vault key with a fresh nonce
      and overwrites the catalog row. The row is updated in place, so when
      there is no row nothing is written and the call still succeeds. */
  method SaveCatalog(v: Vault, entries: seq<CatalogEntry>, now: int, rng: Entropy) returns (r: Result<()>)
    modifies v.conn, rng
    ensures v.conn.header == old(v.conn.header) && v.conn.items == old(v.conn.items)
    ensures |old(rng.pool)| < NonceLen ==>
      r == Err(RandomUnavailable) && v.conn.catalog == old(v.conn.catalog) && rng.pool == old(rng.pool)
    ensures NonceLen <= |old(rng.pool)| ==>
      r == Ok(()) && rng.pool == old(rng.pool)[NonceLen..]
      && v.conn.catalog == (if old(v.conn.catalog).Some? then Some(SealedCatalog(v.key, old(rng.pool)[..NonceLen], entries, now)) else None)
    ensures r.Ok? && old(v.conn.catalog).Some? ==> LoadCatalog(v) == Ok(entries)
  {
    var sealed :- EncryptBlob(v.key, EntryList(entries), rng);
    if v.conn.catalog.Some? {
      v.conn.catalog := Some(CatalogRow(sealed.1, sealed.0, now));
    }
    r := Ok(());
  }

  /** `load_catalog_sorted`: the catalog, sorted in place by lower-cased
      title and then id. */
  method LoadCatalogSorted(v: Vault) returns (r: Result<seq<CatalogEntry>>)
    ensures LoadCatalog(v).Err? ==> r == LoadCatalog(v)
    ensures LoadCatalog(v).Ok? ==> r == Ok(SortBy(Less(ByTitleThenId), LoadCatalog(v).value))
    ensures r.Ok? ==> multiset(r.value) == multiset(LoadCatalog(v).value)
    ensures r.Ok? ==> Sorted(Less(ByTitleThenId), r.value)
  {
    var entries :- LoadCatalog(v);
    var a := new CatalogEntry[|entries|](i requires 0 <= i < |entries| => entries[i]);
    assert a[..a.Length] == entries;
    SortInPlace(Less(ByTitleThenId), a, a.Length);
    assert a[..] == a[..a.Length];
    SortByPermutes(Less(ByTitleThenId), entries);
    LessIsStrictWeakOrder(ByTitleThenId);
    SortBySorted(Less(ByTitleThenId), entries);
    r := Ok(a[..]);
  }

  /** The value of a string of ASCII digits, read left to right. */
  function DecimalValue(s: string): nat
    requires AllAsciiDigits(s)
  {
    if s == [] then 0
    else 10 * DecimalValue(s[..|s| - 1]) + (s[|s| - 1] as int - '0' as int)
  }

  /** `sel.parse::<usize>().unwrap_or(0)` for a string of ASCII digits: the
      empty string and values beyond the range of `usize` give 0. */
  function ParseIndex(sel: string): (idx: nat)
    requires AllAsciiDigits(sel)
    ensures idx <= UsizeMax
    ensures sel != [] && DecimalValue(sel) <= UsizeMax ==> idx == DecimalValue(sel)
    ensures sel == [] ==> idx == 0
    ensures sel != [] && DecimalValue(sel) > UsizeMax ==> idx == 0
  {
    if sel == [] || DecimalValue(sel) > UsizeMax then 0 else DecimalValue(sel)
  }

  /** The id prefix a non-numeric selector stands for: trimmed and
      lower-cased. */
  function SelectorPrefix(sel: string): string {
    Lower(Trim(sel))
  }

  /** The core of `resolve_selector_to_id`, on the sorted catalog: a string of
      digits (possibly empty) is a 1-based index into the listing; anything
      else is an id prefix of at least 4 bytes that must match exactly one
      entry. */
  function Resolve(sorted: seq<CatalogEntry>, sel: string): (r: Result<string>)
    ensures sorted == [] ==> r == Err(CatalogEmpty)
    ensures r.Err? && sorted != [] && AllAsciiDigits(sel) ==> r.error == IndexOutOfRange(ParseIndex(sel), |sorted|)
    ensures sorted != [] && !AllAsciiDigits(sel) && Utf8Len(SelectorPrefix(sel)) < 4 ==> r == Err(PrefixTooShort)
  {
    if sorted == [] then Err(CatalogEmpty)
    else if AllAsciiDigits(sel) then
      var idx := ParseIndex(sel);
      if idx == 0 || idx > |sorted| then Err(IndexOutOfRange(idx, |sorted|))
      else Ok(sorted[idx - 1].id)
    else
      var prefix := SelectorPrefix(sel);
      if Utf8Len(prefix) < 4 then Err(PrefixTooShort)
      else
        var matches := Filter(Kept(IdHasPrefix(prefix)), sorted);
        if |matches| == 0 then Err(NoMatch)
        else if |matches| > 1 then Err(AmbiguousPrefix)
        else Ok(matches[0].id)
  }

  /** A numeric selector resolves exactly when it is a position in the
      listing, and then to the id listed there. */
  lemma ResolveIndex(sorted: seq<CatalogEntry>, sel: string)
    requires sorted != [] && AllAsciiDigits(sel)
    ensures Resolve(sorted, sel).Ok? <==> 1 <= ParseIndex(sel) <= |sorted|
    ensures Resolve(sorted, sel).Ok? ==> Resolve(sorted, sel).value == sorted[ParseIndex(sel) - 1].id
  {
  }

  /** Entry `k` is the one entry whose id starts with `prefix`. */
  predicate OnlyMatch(sorted: seq<CatalogEntry>, prefix: string, k: int) {
    && 0 <= k < |sorted|
    && prefix <= sorted[k].id
    && forall m :: 0 <= m < |sorted| && prefix <= sorted[m].id ==> m == k
  }

  /** A long enough prefix resolves exactly when one entry's id starts with
      it, and then to that entry's id; no match and two or more matches are
      told apart. */
  lemma ResolvePrefix(sorted: seq<CatalogEntry>, sel: string)
    requires sorted != [] && !AllAsciiDigits(sel) && Utf8Len(SelectorPrefix(sel)) >= 4
    ensures Resolve(sorted, sel).Ok? <==> exists k :: OnlyMatch(sorted, SelectorPrefix(sel), k)
    ensures forall k :: OnlyMatch(sorted, SelectorPrefix(sel), k) ==> Resolve(sorted, sel) == Ok(sorted[k].id)
    ensures Resolve(sorted, sel) == Err(NoMatch) <==> forall m :: 0 <= m < |sorted| ==> !(SelectorPrefix(sel) <= sorted[m].id)
  {
    var prefix := SelectorPrefix(sel);
    var keep := Kept(IdHasPrefix(prefix));
    var matches := Filter(keep, sorted);
    FilterMembers(keep, sorted);
    forall k | OnlyMatch(sorted, prefix, k) ensures matches == [sorted[k]] {
      FilterOnly(keep, sorted, k);
    }
    if |matches| == 1 {
      var k := SingleMatch(sorted, prefix);
    }
    if |matches| == 0 {
      forall m | 0 <= m < |sorted| ensures !(prefix <= sorted[m].id) {
        assert sorted[m] in sorted;
      }
    } else {
      assert matches[0] in matches;
    }
  }

  /** A single entry kept by the prefix filter is the only match. */
  lemma SingleMatch(sorted: seq<CatalogEntry>, prefix: string) returns (k: nat)
    requires |Filter(Kept(IdHasPrefix(prefix)), sorted)| == 1
    ensures OnlyMatch(sorted, prefix, k)
  {
    var keep := Kept(IdHasPrefix(prefix));
    var matches := Filter(keep, sorted);
    FilterMembers(keep, sorted);
    assert matches[0] in matches;
    k :| 0 <= k < |sorted| && sorted[k] == matches[0];
    forall m | 0 <= m < |sorted| && prefix <= sorted[m].id ensures m == k {
      if m != k {
        FilterTwo(keep, sorted, if m < k then m else k, if m < k then k else m);
      }
    }
  }

  /** Entries `i` and `j`, in that order, both have ids starting with `prefix`. */
  predicate SharedPrefix(sorted: seq<CatalogEntry>, prefix: string, i: int, j: int) {
    0 <= i < j < |sorted| && prefix <= sorted[i].id && prefix <= sorted[j].id
  }

  /** A long enough prefix is rejected as ambiguous exactly when two entries'
      ids start with it. */
  lemma ResolveAmbiguous(sorted: seq<CatalogEntry>, sel: string)
    requires sorted != [] && !AllAsciiDigits(sel) && Utf8Len(SelectorPrefix(sel)) >= 4
    ensures Resolve(sorted, sel) == Err(AmbiguousPrefix) <==> exists i, j :: SharedPrefix(sorted, SelectorPrefix(sel), i, j)
  {
    var prefix := SelectorPrefix(sel);
    var keep := Kept(IdHasPrefix(prefix));
    var matches := Filter(keep, sorted);
    if exists i, j :: SharedPrefix(sorted, prefix, i, j) {
      var i, j :| SharedPrefix(sorted, prefix, i, j);
      FilterTwo(keep, sorted, i, j);
    }
    if Resolve(sorted, sel) == Err(AmbiguousPrefix) {
      ResolvePrefix(sorted, sel);
      var m0 :| 0 <= m0 < |sorted| && prefix <= sorted[m0].id;
      assert !OnlyMatch(sorted, prefix, m0);
      var m1 :| 0 <= m1 < |sorted| && prefix <= sorted[m1].id && m1 != m0;
      if m0 < m1 {
        assert SharedPrefix(sorted, prefix, m0, m1);
      } else {
        assert SharedPrefix(sorted, prefix, m1, m0);
      }
    }
  }

  /** Whatever the selector, a resolved id is the id of a catalog entry. */
  lemma ResolveFindsEntry(sorted: seq<CatalogEntry>, sel: string)
    requires Resolve(sorted, sel).Ok?
    ensures exists k :: 0 <= k < |sorted| && sorted[k].id == Resolve(sorted, sel).value
  {
    if AllAsciiDigits(sel) {
      assert sorted[ParseIndex(sel) - 1].id == Resolve(sorted, sel).value;
    } else {
      var matches := Filter(Kept(IdHasPrefix(SelectorPrefix(sel))), sorted);
      FilterMembers(Kept(IdHasPrefix(SelectorPrefix(sel))), sorted);
      assert matches[0] in matches;
    }
  }

  /** `resolve_selector_to_id`: resolves the selector against the sorted
      catalog. */
  method ResolveSelectorToId(v: Vault, sel: string) returns (r: Result<string>)
    ensures LoadCatalog(v).Err? ==> r == Err(LoadCatalog(v).error)
    ensures LoadCatalog(v).Ok? ==> r == Resolve(SortBy(Less(ByTitleThenId), LoadCatalog(v).value), sel)
    ensures r.Ok? ==> exists e :: e in LoadCatalog(v).value && e.id == r.value
  {
    var sorted :- LoadCatalogSorted(v);
    r := Resolve(sorted, sel);
    if r.Ok? {
      ResolveFindsEntry(sorted, sel);
      var k :| 0 <= k < |sorted| && sorted[k].id == r.value;
      assert sorted[k] in multiset(sorted);
    }
  }

  /** The first `limit` entries of `s`, or all of them when `limit` is 0. */
  function Truncate(s: seq<CatalogEntry>, limit: nat): seq<CatalogEntry> {
    if limit > 0 && |s| > limit then s[..limit] else s
  }

  /** What `search_titles` lists: the entries whose lower-cased title
      contains the lower-cased query, newest first (ties in catalog order),
      at most `limit` of them when `limit` is positive. */
  function SearchResult(entries: seq<CatalogEntry>, query: string, limit: nat): seq<CatalogEntry> {
    Truncate(SortBy(Less(NewestFirst), Filter(Kept(TitleContains(Lower(query))), entries)), limit)
  }

  /** The filter, sort and truncate steps of `search_titles`, on a vector
      held in an array. */
  method SearchTitles(v: Vault, query: string, limit: nat) returns (r: Result<seq<CatalogEntry>>)
    ensures LoadCatalog(v).Err? ==> r == LoadCatalog(v)
    ensures LoadCatalog(v).Ok? ==> r == Ok(SearchResult(LoadCatalog(v).value, query, limit))
  {
    var needle := Lower(query);
    var entries :- LoadCatalog(v);
    var a := new CatalogEntry[|entries|](i requires 0 <= i < |entries| => entries[i]);
    assert a[..a.Length] == entries;
    var len := RetainInPlace(Kept(TitleContains(needle)), a, a.Length);
    SortInPlace(Less(NewestFirst), a, len);
    ghost var sorted := a[..len];
    if limit > 0 && len > limit {
      len := limit;
      assert a[..len] == sorted[..limit];
    }
    r := Ok(a[..len]);
  }

  /** Every search hit is a catalog entry whose lower-cased title contains the
      lower-cased query; without truncation every such entry is a hit. There
      are never more than `limit` hits when `limit` is positive. */
  lemma SearchMembers(entries: seq<CatalogEntry>, query: string, limit: nat)
    ensures forall e :: e in SearchResult(entries, query, limit) ==> e in entries && Contains(Lower(e.title), Lower(query))
    ensures limit > 0 ==> |SearchResult(entries, query, limit)| <= limit
    ensures |Filter(Kept(TitleContains(Lower(query))), entries)| <= limit || limit == 0 ==>
      forall e :: e in entries && Contains(Lower(e.title), Lower(query)) ==> e in SearchResult(entries, query, limit)
    ensures var n := |Filter(Kept(TitleContains(Lower(query))), entries)|;
      |SearchResult(entries, query, limit)| == if limit > 0 && n > limit then limit else n
    ensures SearchResult(entries, query, limit) <= SearchResult(entries, query, 0)
  {
    var keep := Kept(TitleContains(Lower(query)));
    var hits := Filter(keep, entries);
    FilterMembers(keep, entries);
    SortByPermutes(Less(NewestFirst), hits);
    var sorted := SortBy(Less(NewestFirst), hits);
    assert |sorted| == |multiset(sorted)| == |hits|;
    forall e | e in SearchResult(entries, query, limit) ensures e in hits {
      assert e in sorted;
      assert e in multiset(sorted);
    }
    if |hits| <= limit || limit == 0 {
      forall e | e in hits ensures e in SearchResult(entries, query, limit) {
        assert e in multiset(hits);
      }
    }
  }

  /** Search hits are listed newest first, and hits with the same update time
      keep their catalog order: with no limit they are all listed in that
      order, and a limit keeps the first of them. */
  lemma SearchOrder(entries: seq<CatalogEntry>, query: string, limit: nat, stamp: int)
    ensures forall i, j :: 0 <= i < j < |SearchResult(entries, query, limit)| ==>
      SearchResult(entries, query, limit)[i].updatedAt >= SearchResult(entries, query, limit)[j].updatedAt
    ensures limit == 0 ==>
      Filter(Kept(HasKey(NewestFirst, StampKey(stamp))), SearchResult(entries, query, limit))
      == Filter(Kept(HasKey(NewestFirst, StampKey(stamp))), Filter(Kept(TitleContains(Lower(query))), entries))
    ensures Filter(Kept(HasKey(NewestFirst, StampKey(stamp))), SearchResult(entries, query, limit))
      <= Filter(Kept(HasKey(NewestFirst, StampKey(stamp))), Filter(Kept(TitleContains(Lower(query))), entries))
  {
    var hits := Filter(Kept(TitleContains(Lower(query))), entries);
    LessIsStrictWeakOrder(NewestFirst);
    SortBySorted(Less(NewestFirst), hits);
    var sorted := SortBy(Less(NewestFirst), hits);
    var res := SearchResult(entries, query, limit);
    forall i, j | 0 <= i < j < |res| ensures res[i].updatedAt >= res[j].updatedAt {
      assert res[i] == sorted[i] && res[j] == sorted[j];
      assert !Less(NewestFirst)(sorted[j], sorted[i]);
    }
    SortStable(NewestFirst, hits, StampKey(stamp));
    if limit > 0 && |sorted| > limit {
      FilterPrefix(Kept(HasKey(NewestFirst, StampKey(stamp))), sorted, limit);
    }
  }
}
