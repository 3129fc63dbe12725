/**
 * What the table store does for a `session.query(Post)`: scan the rows,
 * keep those a filter accepts, and order them by one column. Rows are named
 * by their primary keys; `view` gives each key's serialised row.
 */
module Query {
  import opened Text
  import opened Values
  import opened Storage

  /** `ids` lists every key of `keys` exactly once, in some order. */
  ghost predicate Enumerates(ids: seq<int>, keys: set<int>) {
    forall k :: multiset(ids)[k] == if k in keys then 1 else 0
  }

  lemma NonEmptyHasMember(s: set<int>)
    requires s != {}
    ensures exists k :: k in s
  {
    assert (forall k :: k !in s) ==> s == {};
  }

  /** A full scan of the table: every stored key once, in an order the store chooses. */
  method Scan(keys: set<int>) returns (ids: seq<int>)
    ensures Enumerates(ids, keys)
  {
    ids := [];
    var rest := keys;
    while rest != {}
      invariant rest <= keys
      invariant forall k :: multiset(ids)[k] == if k in keys && k !in rest then 1 else 0
      decreases |rest|
    {
      NonEmptyHasMember(rest);
      var k :| k in rest;
      ids := ids + [k];
      rest := rest - {k};
    }
  }

  /** The serialised rows of a table. */
  function ViewOf(rows: map<int, Record>): map<int, Dict> {
    map k | k in rows :: ToDict(rows[k])
  }

  /** The serialised rows named by `ids`, in that order. */
  function DictsOf(ids: seq<int>, view: map<int, Dict>): seq<Dict>
    requires forall i | 0 <= i < |ids| :: ids[i] in view
  {
    seq(|ids|, i requires 0 <= i < |ids| => view[ids[i]])
  }

  /** Every key an enumeration lists is one of the keys it enumerates. */
  lemma EnumeratedMembers(ids: seq<int>, keys: set<int>)
    requires Enumerates(ids, keys)
    ensures forall i | 0 <= i < |ids| :: ids[i] in keys
  {
    forall i | 0 <= i < |ids|
      ensures ids[i] in keys
    {
      var k := ids[i];
      assert k in multiset(ids);
      assert multiset(ids)[k] == if k in keys then 1 else 0;
    }
  }

  /** Listing stored keys through the serialised view gives each row's `to_dict`, in the listed order. */
  lemma SerialisedRows(ids: seq<int>, rows: map<int, Record>)
    requires forall i | 0 <= i < |ids| :: ids[i] in rows
    ensures forall i | 0 <= i < |ids| :: ids[i] in ViewOf(rows)
    ensures |DictsOf(ids, ViewOf(rows))| == |ids|
    ensures forall i | 0 <= i < |ids| :: DictsOf(ids, ViewOf(rows))[i] == ToDict(rows[ids[i]])
  { }

  /** The value a row holds in column `col`, as the store compares it. */
  function SortKey(view: map<int, Dict>, id: int, col: string): Value {
    if id in view && col in view[id] then view[id][col] else VNull
  }

  /** `a` may come before `b` in an ascending, or with `desc` a descending, `ORDER BY`. */
  predicate InOrder(a: Value, b: Value, desc: bool) {
    if desc then ValueLe(b, a) else ValueLe(a, b)
  }

  predicate SortedBy(ids: seq<int>, view: map<int, Dict>, col: string, desc: bool) {
    forall i, j | 0 <= i < j < |ids| :: InOrder(SortKey(view, ids[i], col), SortKey(view, ids[j], col), desc)
  }

  function Insert(id: int, ids: seq<int>, view: map<int, Dict>, col: string, desc: bool): seq<int>
    decreases |ids|
  {
    if ids == [] then [id]
    else if InOrder(SortKey(view, id, col), SortKey(view, ids[0], col), desc) then [id] + ids
    else [ids[0]] + Insert(id, ids[1..], view, col, desc)
  }

  /** `ORDER BY col` (with `desc`, `ORDER BY col DESC`); ties keep no particular order. */
  function Sort(ids: seq<int>, view: map<int, Dict>, col: string, desc: bool): seq<int>
    decreases |ids|
  {
    if ids == [] then [] else Insert(ids[0], Sort(ids[1..], view, col, desc), view, col, desc)
  }

  lemma InOrderTotal(a: Value, b: Value, desc: bool)
    ensures InOrder(a, b, desc) || InOrder(b, a, desc)
  {
    ValueLeTotal(a, b);
  }

  lemma InOrderTransitive(a: Value, b: Value, c: Value, desc: bool)
    requires InOrder(a, b, desc) && InOrder(b, c, desc)
    ensures InOrder(a, c, desc)
  {
    if desc {
      ValueLeTransitive(c, b, a);
    } else {
      ValueLeTransitive(a, b, c);
    }
  }

  /** Inserting adds exactly the one key. */
  lemma {:induction false} InsertPermutes(id: int, ids: seq<int>, view: map<int, Dict>, col: string, desc: bool)
    ensures multiset(Insert(id, ids, view, col, desc)) == multiset(ids) + multiset{id}
    decreases |ids|
  {
    if ids != [] && !InOrder(SortKey(view, id, col), SortKey(view, ids[0], col), desc) {
      InsertPermutes(id, ids[1..], view, col, desc);
      assert multiset(ids) == multiset{ids[0]} + multiset(ids[1..]) by {
        assert ids == [ids[0]] + ids[1..];
      }
    }
  }

  /** Inserting into an ordered list keeps it ordered. */
  lemma {:induction false} InsertKeepsOrder(id: int, ids: seq<int>, view: map<int, Dict>, col: string, desc: bool)
    requires SortedBy(ids, view, col, desc)
    ensures SortedBy(Insert(id, ids, view, col, desc), view, col, desc)
    decreases |ids|
  {
    if ids == [] {
    } else if InOrder(SortKey(view, id, col), SortKey(view, ids[0], col), desc) {
      PrependSmallest(id, ids, view, col, desc);
    } else {
      var tail := ids[1..];
      SortedTail(ids, view, col, desc);
      InsertKeepsOrder(id, tail, view, col, desc);
      InsertPermutes(id, tail, view, col, desc);
      InOrderTotal(SortKey(view, id, col), SortKey(view, ids[0], col), desc);
      var rest := Insert(id, tail, view, col, desc);
      HeadPrecedesAll(id, ids, rest, view, col, desc);
      PrependSmallestOf(ids[0], rest, view, col, desc);
    }
  }

  /** The head of an ordered list, when it goes before `id`, goes before every key of the tail with `id` added. */
  lemma HeadPrecedesAll(id: int, ids: seq<int>, rest: seq<int>, view: map<int, Dict>, col: string, desc: bool)
    requires ids != [] && SortedBy(ids, view, col, desc)
    requires InOrder(SortKey(view, ids[0], col), SortKey(view, id, col), desc)
    requires multiset(rest) == multiset(ids[1..]) + multiset{id}
    ensures forall x | x in rest :: InOrder(SortKey(view, ids[0], col), SortKey(view, x, col), desc)
  {
    var tail := ids[1..];
    forall x | x in rest
      ensures InOrder(SortKey(view, ids[0], col), SortKey(view, x, col), desc)
    {
      assert x in multiset(rest);
      if x != id {
        assert x in multiset(tail);
        var m :| 0 <= m < |tail| && tail[m] == x;
        assert ids[m + 1] == x;
      }
    }
  }

  lemma SortedTail(ids: seq<int>, view: map<int, Dict>, col: string, desc: bool)
    requires ids != [] && SortedBy(ids, view, col, desc)
    ensures SortedBy(ids[1..], view, col, desc)
  {
    var tail := ids[1..];
    forall i, j | 0 <= i < j < |tail|
      ensures InOrder(SortKey(view, tail[i], col), SortKey(view, tail[j], col), desc)
    {
      assert tail[i] == ids[i + 1] && tail[j] == ids[j + 1];
    }
  }

  /** A key no later than the head of an ordered list can go in front of it. */
  lemma PrependSmallest(id: int, ids: seq<int>, view: map<int, Dict>, col: string, desc: bool)
    requires ids != [] && SortedBy(ids, view, col, desc)
    requires InOrder(SortKey(view, id, col), SortKey(view, ids[0], col), desc)
    ensures SortedBy([id] + ids, view, col, desc)
  {
    forall x | x in ids
      ensures InOrder(SortKey(view, id, col), SortKey(view, x, col), desc)
    {
      var m :| 0 <= m < |ids| && ids[m] == x;
      if m > 0 {
        InOrderTransitive(SortKey(view, id, col), SortKey(view, ids[0], col), SortKey(view, x, col), desc);
      }
    }
    PrependSmallestOf(id, ids, view, col, desc);
  }

  /** A key no later than every key of an ordered list can go in front of it. */
  lemma PrependSmallestOf(id: int, ids: seq<int>, view: map<int, Dict>, col: string, desc: bool)
    requires SortedBy(ids, view, col, desc)
    requires forall x | x in ids :: InOrder(SortKey(view, id, col), SortKey(view, x, col), desc)
    ensures SortedBy([id] + ids, view, col, desc)
  {
    var r := [id] + ids;
    forall i, j | 0 <= i < j < |r|
      ensures InOrder(SortKey(view, r[i], col), SortKey(view, r[j], col), desc)
    {
      assert r[j] == ids[j - 1];
      if i > 0 {
        assert r[i] == ids[i - 1];
      } else {
        assert r[j] in ids;
      }
    }
  }

  /** Sorting yields an ordered permutation of its input. */
  lemma {:induction false} SortOrdersPermutation(ids: seq<int>, view: map<int, Dict>, col: string, desc: bool)
    ensures multiset(Sort(ids, view, col, desc)) == multiset(ids)
    ensures SortedBy(Sort(ids, view, col, desc), view, col, desc)
    decreases |ids|
  {
    if ids != [] {
      SortOrdersPermutation(ids[1..], view, col, desc);
      InsertPermutes(ids[0], Sort(ids[1..], view, col, desc), view, col, desc);
      InsertKeepsOrder(ids[0], Sort(ids[1..], view, col, desc), view, col, desc);
      assert ids == [ids[0]] + ids[1..];
    }
  }

  /** A permutation of an enumeration is again an enumeration of the same keys. */
  lemma PermutedEnumeration(ids: seq<int>, perm: seq<int>, keys: set<int>)
    requires Enumerates(ids, keys) && multiset(perm) == multiset(ids)
    ensures Enumerates(perm, keys)
  { }

  /** The `ilike('%pattern%')` test on one stored value: ASCII case-insensitive substring of its text. */
  predicate ValueMatches(v: Value, pattern: string) {
    match StoredText(v)
    case None => false
    case Some(t) => Contains(Lower(pattern), Lower(t))
  }

  /** Every `(field, pattern)` of the query names a column whose value matches. */
  predicate RowMatches(r: Record, query: map<string, string>) {
    forall f | f in query :: IsColumn(f) && ValueMatches(Field(r, f), query[f])
  }

  /** The keys of the rows that match the query. */
  function Matching(rows: map<int, Record>, query: map<string, string>): set<int> {
    set k | k in rows && RowMatches(rows[k], query)
  }

  /** `filter(*filters)`: keeps the keys whose rows match, each as often as it was listed. */
  function Filter(ids: seq<int>, rows: map<int, Record>, query: map<string, string>): (kept: seq<int>)
    ensures forall k :: multiset(kept)[k] == if k in rows && RowMatches(rows[k], query) then multiset(ids)[k] else 0
    decreases |ids|
  {
    if ids == [] then []
    else
      var rest := Filter(ids[1..], rows, query);
      assert ids == [ids[0]] + ids[1..];
      if ids[0] in rows && RowMatches(rows[ids[0]], query) then [ids[0]] + rest else rest
  }

  /** A value matches exactly when the lower-cased pattern occurs somewhere in its lower-cased text. */
  lemma MatchIsCaseInsensitiveSubstring(v: Value, pattern: string)
    ensures ValueMatches(v, pattern) <==>
      StoredText(v).Some? && exists i :: OccursAt(Lower(pattern), Lower(StoredText(v).value), i)
  {
    if StoredText(v).Some? {
      ContainsIff(Lower(pattern), Lower(StoredText(v).value));
    }
  }
}
