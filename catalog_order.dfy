/** The two orders the catalog is shown in, and the filters applied to it.

    The catalog is listed by case-insensitive title, then id
    (src/catalog.rs:66-69), and searched newest first (src/catalog.rs:139).
    Each order is a strict weak order on entries, handed to the generic
    stable sort as `Less(o)`; each filter is handed to `Filter` as
    `Kept(k)`. */
module CatalogOrder {
  import opened Common
  import opened Records
  import opened Sorting

  /** `String::cmp`: lexicographic by code point, which is the order of the
      UTF-8 bytes. */
  predicate LexLess(a: string, b: string)
    decreases |a|
  {
    if |a| == 0 then |b| > 0
    else if |b| == 0 then false
    else if a[0] != b[0] then a[0] < b[0]
    else LexLess(a[1..], b[1..])
  }

  lemma {:induction false} LexLessIrreflexive(a: string)
    ensures !LexLess(a, a)
    decreases |a|
  {
    if |a| > 0 {
      LexLessIrreflexive(a[1..]);
    }
  }

  lemma {:induction false} LexLessTransitive(a: string, b: string, c: string)
    requires LexLess(a, b) && LexLess(b, c)
    ensures LexLess(a, c)
    decreases |a|
  {
    if |a| > 0 && a[0] == b[0] && b[0] == c[0] {
      LexLessTransitive(a[1..], b[1..], c[1..]);
    }
  }

  lemma {:induction false} LexLessTotal(a: string, b: string)
    requires a != b
    ensures LexLess(a, b) || LexLess(b, a)
    decreases |a|
  {
    if |a| > 0 && |b| > 0 && a[0] == b[0] {
      assert a == [a[0]] + a[1..] && b == [b[0]] + b[1..];
      LexLessTotal(a[1..], b[1..]);
    }
  }

  /** The two orders the catalog is shown in. */
  datatype Order = ByTitleThenId | NewestFirst

  /** What an order compares: the lower-cased title and the id, or the
      update time. Entries with equal keys are equivalent for the order. */
  datatype SortKey = TitleKey(title: string, id: string) | StampKey(stamp: int)

  function KeyOf(o: Order, e: CatalogEntry): SortKey {
    match o
    case ByTitleThenId => TitleKey(Lower(e.title), e.id)
    case NewestFirst => StampKey(e.updatedAt)
  }

  /** Strict precedence of keys: title then id ascending; time descending. */
  predicate KeyPrecedes(x: SortKey, y: SortKey) {
    if x.TitleKey? && y.TitleKey? then
      LexLess(x.title, y.title) || (x.title == y.title && LexLess(x.id, y.id))
    else if x.StampKey? && y.StampKey? then
      x.stamp > y.stamp
    else
      false
  }

  /** `a` comes strictly before `b` in order `o`. */
  predicate Before(o: Order, a: CatalogEntry, b: CatalogEntry) {
    KeyPrecedes(KeyOf(o, a), KeyOf(o, b))
  }

  lemma BeforeIrreflexive(o: Order, a: CatalogEntry, b: CatalogEntry)
    requires KeyOf(o, a) == KeyOf(o, b)
    ensures !Before(o, a, b)
  {
    if o.ByTitleThenId? {
      LexLessIrreflexive(KeyOf(o, a).title);
      LexLessIrreflexive(KeyOf(o, a).id);
    }
  }

  lemma BeforeTransitive(o: Order, a: CatalogEntry, b: CatalogEntry, c: CatalogEntry)
    requires Before(o, a, b) && Before(o, b, c)
    ensures Before(o, a, c)
  {
    if o.ByTitleThenId? {
      var ka, kb, kc := KeyOf(o, a), KeyOf(o, b), KeyOf(o, c);
      if LexLess(ka.title, kb.title) && LexLess(kb.title, kc.title) {
        LexLessTransitive(ka.title, kb.title, kc.title);
      } else if ka.title == kb.title && kb.title == kc.title {
        LexLessTransitive(ka.id, kb.id, kc.id);
      }
    }
  }

  /** Entries with different keys are ordered one way or the other. */
  lemma BeforeTotal(o: Order, a: CatalogEntry, b: CatalogEntry)
    requires KeyOf(o, a) != KeyOf(o, b)
    ensures Before(o, a, b) || Before(o, b, a)
  {
    if o.ByTitleThenId? {
      var ka, kb := KeyOf(o, a), KeyOf(o, b);
      if ka.title != kb.title {
        LexLessTotal(ka.title, kb.title);
      } else {
        LexLessTotal(ka.id, kb.id);
      }
    }
  }

  lemma BeforeAsymmetric(o: Order, a: CatalogEntry, b: CatalogEntry)
    requires Before(o, a, b)
    ensures !Before(o, b, a)
  {
    if Before(o, b, a) {
      BeforeTransitive(o, a, b, a);
      BeforeIrreflexive(o, a, a);
    }
  }

  /** "Not after" is transitive, as in every strict weak order. */
  lemma NotBeforeTransitive(o: Order, a: CatalogEntry, b: CatalogEntry, c: CatalogEntry)
    requires !Before(o, a, b) && !Before(o, b, c)
    ensures !Before(o, a, c)
  {
    if Before(o, a, c) && KeyOf(o, a) != KeyOf(o, b) {
      BeforeTotal(o, a, b);
      BeforeTransitive(o, b, a, c);
    }
  }

  /** `Before` as the comparison handed to the sort. */
  function Less(o: Order): (less: (CatalogEntry, CatalogEntry) -> bool)
    ensures forall a, b :: less(a, b) == Before(o, a, b)
  {
    (a, b) => Before(o, a, b)
  }

  /** Both catalog orders are strict weak orders, so the sorts are well
      defined. */
  lemma LessIsStrictWeakOrder(o: Order)
    ensures StrictWeakOrder(Less(o))
  {
    forall a ensures !Before(o, a, a) {
      BeforeIrreflexive(o, a, a);
    }
    forall a, b, c | Before(o, a, b) && Before(o, b, c) ensures Before(o, a, c) {
      BeforeTransitive(o, a, b, c);
    }
    forall a, b, c | !Before(o, a, b) && !Before(o, b, c) ensures !Before(o, a, c) {
      NotBeforeTransitive(o, a, b, c);
    }
  }

  /** What `Vec::retain` keeps. */
  datatype Keep =
    | TitleContains(needle: string)     // the lower-cased title contains the needle
    | IdIsNot(id: string)
    | IdHasPrefix(prefix: string)
    | HasKey(o: Order, key: SortKey)    // equivalent under `o` to entries of this key

  predicate Keeps(k: Keep, e: CatalogEntry) {
    match k
    case TitleContains(needle) => Contains(Lower(e.title), needle)
    case IdIsNot(id) => e.id != id
    case IdHasPrefix(prefix) => prefix <= e.id
    case HasKey(o, key) => KeyOf(o, e) == key
  }

  /** `Keeps` as the predicate handed to the filter. */
  function Kept(k: Keep): (keep: CatalogEntry -> bool)
    ensures forall e :: keep(e) == Keeps(k, e)
  {
    e => Keeps(k, e)
  }

  /** Both catalog sorts are stable: for every key, the entries with that key
      appear in the sorted list in the order they had before. */
  lemma SortStable(o: Order, s: seq<CatalogEntry>, key: SortKey)
    ensures Filter(Kept(HasKey(o, key)), SortBy(Less(o), s)) == Filter(Kept(HasKey(o, key)), s)
  {
    forall a, b | Kept(HasKey(o, key))(a) && Kept(HasKey(o, key))(b) ensures !Less(o)(a, b) {
      BeforeIrreflexive(o, a, b);
    }
    SortByStable(Less(o), Kept(HasKey(o, key)), s);
  }
}
