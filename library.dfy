/**
 * The catalog service: an ordered list of items in which no two items share
 * the identity key (title, publisher, publication year). Items enter only
 * through AddItem, which scans the whole list for the key before appending.
 */
module Library {
  import opened Outcomes
  import opened Items

  /** Some stored item has the key. */
  predicate HasKey(items: seq<Item>, k: Key) {
    exists j :: 0 <= j < |items| && KeyOf(items[j]) == k
  }

  /** The catalog invariant: no two stored items share the identity key. */
  predicate NoDuplicateKeys(items: seq<Item>) {
    forall i, j :: 0 <= i < j < |items| ==> KeyOf(items[i]) != KeyOf(items[j])
  }

  /**
   * What AddItem does to the list, as a value: a null item is rejected as
   * invalid item data, an item whose key is already stored is rejected as a
   * duplicate, and any other item is appended. Variant and variant-specific
   * fields play no part. An accepted item keeps the invariant.
   */
  function Insert(items: seq<Item>, item: Option<Item>): (r: Result<seq<Item>, Error>)
    ensures NoDuplicateKeys(items) && r.Ok? ==> NoDuplicateKeys(r.value)
    ensures r.Ok? ==> item.Some? && r.value == items + [item.value]
    ensures item.None? ==> r == Err(InvalidItemData(NullItem))
    ensures r.Err? && item.Some? ==> r == Err(DuplicateEntry(KeyOf(item.value)))
  {
    match item
    case None => Err(InvalidItemData(NullItem))
    case Some(x) =>
      if HasKey(items, KeyOf(x)) then Err(DuplicateEntry(KeyOf(x)))
      else Ok(items + [x])
  }

  /**
   * The duplicate scan rejects no more than it must: on a list that keeps the
   * invariant, an item is accepted exactly when appending it keeps the invariant.
   */
  lemma {:induction false} InsertAcceptsExactlyUnique(items: seq<Item>, x: Item)
    requires NoDuplicateKeys(items)
    ensures Insert(items, Some(x)).Ok? <==> NoDuplicateKeys(items + [x])
  {
    if HasKey(items, KeyOf(x)) {
      var j :| 0 <= j < |items| && KeyOf(items[j]) == KeyOf(x);
      assert (items + [x])[j] == items[j] && (items + [x])[|items|] == x;
    }
  }

  /** The stored items of type t, in insertion order (Enumerable.OfType). */
  function Filter(items: seq<Item>, t: ItemType): seq<Item> {
    if items == [] then []
    else if IsA(items[0], t) then [items[0]] + Filter(items[1..], t)
    else Filter(items[1..], t)
  }

  /** r can be obtained from s by deleting elements, without reordering the rest. */
  predicate IsSubsequence(r: seq<Item>, s: seq<Item>) {
    if r == [] then true
    else if s == [] then false
    else (r[0] == s[0] && IsSubsequence(r[1..], s[1..])) || IsSubsequence(r, s[1..])
  }

  /**
   * Filter keeps exactly the items of type t: it is a subsequence of the
   * list, it holds only items of type t, and it holds each item of type t as
   * many times as the list does. FilterDetermined shows that these three
   * facts determine the result.
   */
  lemma {:induction false} FilterSpec(items: seq<Item>, t: ItemType)
    ensures IsSubsequence(Filter(items, t), items)
    ensures forall x :: x in Filter(items, t) ==> IsA(x, t)
    ensures forall x :: IsA(x, t) ==> multiset(Filter(items, t))[x] == multiset(items)[x]
  {
    if items != [] {
      FilterSpec(items[1..], t);
      assert items == [items[0]] + items[1..];
    }
  }

  /** A subsequence holds no element more often than the sequence it is taken from. */
  lemma {:induction false} SubsequenceMultiset(r: seq<Item>, s: seq<Item>)
    requires IsSubsequence(r, s)
    ensures multiset(r) <= multiset(s)
  {
    if r != [] {
      assert s == [s[0]] + s[1..];
      if r[0] == s[0] && IsSubsequence(r[1..], s[1..]) {
        SubsequenceMultiset(r[1..], s[1..]);
        assert r == [r[0]] + r[1..];
      } else {
        SubsequenceMultiset(r, s[1..]);
      }
    }
  }

  /**
   * The three facts of FilterSpec determine the query result: any sequence
   * that meets them is the filtered list.
   */
  lemma {:induction false} FilterDetermined(items: seq<Item>, t: ItemType, r: seq<Item>)
    requires IsSubsequence(r, items)
    requires forall x :: x in r ==> IsA(x, t)
    requires forall x :: IsA(x, t) ==> multiset(r)[x] == multiset(items)[x]
    ensures r == Filter(items, t)
  {
    if items != [] {
      var h, tail := items[0], items[1..];
      assert items == [h] + tail;
      if IsA(h, t) {
        assert multiset(r)[h] == multiset(items)[h] == multiset(tail)[h] + 1;
        if r == [] {
          assert false;
        } else if r[0] == h && IsSubsequence(r[1..], tail) {
          assert r == [h] + r[1..];
          forall x | IsA(x, t)
            ensures multiset(r[1..])[x] == multiset(tail)[x]
          {
            assert multiset(r)[x] == multiset(r[1..])[x] + (if x == h then 1 else 0);
          }
          FilterDetermined(tail, t, r[1..]);
        } else {
          SubsequenceMultiset(r, tail);
          assert false;
        }
      } else {
        assert h !in r;
        if r != [] {
          assert r[0] in r;
          assert IsSubsequence(r, tail);
        }
        forall x | IsA(x, t)
          ensures multiset(r)[x] == multiset(tail)[x]
        {
          assert x != h;
        }
        FilterDetermined(tail, t, r);
      }
    }
  }

  /** Appending an item appends it to the query of every type it belongs to and to no other. */
  lemma {:induction false} FilterAppend(items: seq<Item>, x: Item, t: ItemType)
    ensures Filter(items + [x], t) == Filter(items, t) + (if IsA(x, t) then [x] else [])
  {
    if items != [] {
      assert (items + [x])[1..] == items[1..] + [x];
      FilterAppend(items[1..], x, t);
    }
  }

  /** Querying the base type returns the whole list. */
  lemma {:induction false} FilterAnyItem(items: seq<Item>)
    ensures Filter(items, AnyItem) == items
  {
    if items != [] {
      FilterAnyItem(items[1..]);
    }
  }

  /** Every item is a Book or a Magazine: the two variant queries split the count. */
  lemma {:induction false} CountPartition(items: seq<Item>)
    ensures |items| == |Filter(items, BookType)| + |Filter(items, MagazineType)|
  {
    if items != [] {
      CountPartition(items[1..]);
    }
  }

  /** A query result of a duplicate-free list is duplicate-free. */
  lemma {:induction false} FilterKeepsUnique(items: seq<Item>, t: ItemType)
    requires NoDuplicateKeys(items)
    ensures NoDuplicateKeys(Filter(items, t))
  {
    if items != [] {
      FilterKeepsUnique(items[1..], t);
      if IsA(items[0], t) {
        var rest := Filter(items[1..], t);
        FilterSpec(items[1..], t);
        forall j | 0 <= j < |rest|
          ensures KeyOf(items[0]) != KeyOf(rest[j])
        {
          assert rest[j] in multiset(items[1..]);
          var i :| 0 <= i < |items[1..]| && items[1..][i] == rest[j];
          assert items[i + 1] == rest[j];
        }
      }
    }
  }

  /**
   * After a successful insertion, each by-type query gains the new item at
   * its end when the item has that type, and is unchanged otherwise.
   */
  lemma {:induction false} InsertThenQuery(items: seq<Item>, x: Item, t: ItemType)
    requires Insert(items, Some(x)).Ok?
    ensures Filter(Insert(items, Some(x)).value, t) ==
            Filter(items, t) + (if IsA(x, t) then [x] else [])
  {
    FilterAppend(items, x, t);
  }

  /**
   * Duplicate detection ignores the variant: any item whose key equals that
   * of a stored item is rejected, whatever its variant and own field.
   */
  lemma CrossVariantDuplicate(items: seq<Item>, stored: Item, x: Item)
    requires stored in items && KeyOf(stored) == KeyOf(x)
    ensures Insert(items, Some(x)) == Err(DuplicateEntry(KeyOf(x)))
  {
  }

  /** The book and the magazine of the Clean Code scenario both satisfy every field rule. */
  lemma CleanCodeItemsValid()
    ensures ValidItem(Book("Clean Code", "Pearson Education", 2008, "Robert Martin"))
    ensures ValidItem(Magazine("Clean Code", "Pearson Education", 2008, 3))
  {
    ValidByCharacterCount(Book("Clean Code", "Pearson Education", 2008, "Robert Martin"));
    ValidByCharacterCount(Magazine("Clean Code", "Pearson Education", 2008, 3));
  }

  /** A book, then a magazine with the same title, publisher and year: the second is a duplicate. */
  lemma CleanCodeScenario()
    ensures var book := Book("Clean Code", "Pearson Education", 2008, "Robert Martin");
            var magazine := Magazine("Clean Code", "Pearson Education", 2008, 3);
            Insert([], Some(book)) == Ok([book]) &&
            Insert([book], Some(magazine)) == Err(DuplicateEntry(KeyOf(magazine)))
  {
    var book := Book("Clean Code", "Pearson Education", 2008, "Robert Martin");
    var magazine := Magazine("Clean Code", "Pearson Education", 2008, 3);
    assert [] + [book] == [book];
    assert KeyOf([book][0]) == KeyOf(magazine);
  }

  /** Two items whose keys differ are both accepted, in order. */
  lemma DistinctKeysBothAdded(a: Item, b: Item)
    requires KeyOf(a) != KeyOf(b)
    ensures Insert([], Some(a)) == Ok([a])
    ensures Insert([a], Some(b)) == Ok([a, b])
  {
    assert [] + [a] == [a] && [a] + [b] == [a, b];
  }

  class LibraryService {
    var items: seq<Item>

    ghost predicate Valid()
      reads this
    {
      NoDuplicateKeys(items)
    }

    /** A new service holds no items. */
    constructor()
      ensures Valid() && items == [] && TotalItems() == 0
    {
      items := [];
    }

    /**
     * Rejects a null item, then scans every stored item for the new item's
     * key and rejects a duplicate; otherwise appends the item. A rejected item
     * leaves the list as it was.
     */
    method AddItem(item: Option<Item>) returns (r: Outcome<Error>)
      requires Valid()
      modifies this
      ensures Valid()
      ensures r.Pass? <==> Insert(old(items), item).Ok?
      ensures r.Pass? ==> items == old(items) + [item.value]
      ensures r.Fail? ==> r.error == Insert(old(items), item).error && items == old(items)
    {
      if item.None? {
        return Fail(InvalidItemData(NullItem));
      }
      var x := item.value;
      var i := 0;
      while i < |items|
        invariant 0 <= i <= |items|
        invariant forall j :: 0 <= j < i ==> KeyOf(items[j]) != KeyOf(x)
      {
        var existing := items[i];
        if existing.title == x.title && existing.publisher == x.publisher &&
           existing.publicationYear == x.publicationYear
        {
          assert KeyOf(items[i]) == KeyOf(x);
          return Fail(DuplicateEntry(KeyOf(x)));
        }
        i := i + 1;
      }
      items := items + [x];
      r := Pass;
    }

    /** The number of stored items: the books plus the magazines. */
    function TotalItems(): (n: nat)
      reads this
      ensures n == |items|
      ensures n == |Filter(items, BookType)| + |Filter(items, MagazineType)|
    {
      CountPartition(items);
      |items|
    }

    /**
     * The stored items of type t, in insertion order: a subsequence of the
     * list that holds every item of type t as often as the list does, and no
     * other item.
     */
    function ItemsByType(t: ItemType): (r: seq<Item>)
      reads this
      ensures IsSubsequence(r, items)
      ensures forall x :: x in r ==> IsA(x, t)
      ensures forall x :: IsA(x, t) ==> multiset(r)[x] == multiset(items)[x]
    {
      FilterSpec(items, t);
      Filter(items, t)
    }
  }
}
