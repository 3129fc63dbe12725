/**
 * `BlogManager`: list, add, get, update, delete and search posts over the
 * `posts` table, and validate the data for a new post. The database session
 * is an in-memory table from primary key to Post object; `commit` makes no
 * difference to it. `date.today()` is the parameter `today`.
 */
module Manager {
  import opened Wrappers
  import opened Text
  import opened Dates
  import opened Values
  import opened Storage
  import opened Query

  const InvalidSortMessage: string := "Invalid sort field. Valid options are: " + Join(ColumnNames, ", ") + "."
  const InvalidDirectionMessage: string := "Invalid direction. Valid options are 'asc' or 'desc'."

  /** The failure a search on a name that is not a column meets; it names the field. */
  function UnknownFieldMessage(field: string): string {
    "Cannot search on '" + field + "': it is not a column of Post."
  }

  /** The search failure names the offending field. */
  lemma UnknownFieldMessageNamesField(field: string)
    ensures Contains(field, UnknownFieldMessage(field))
  {
    assert field <= field;
    ContainsInContext(field, "Cannot search on '", field, "': it is not a column of Post.");
  }

  /** `if sort`: a sort field was given and is not empty. */
  predicate SortRequested(sort: Option<string>) {
    sort.Some? && sort.value != ""
  }

  predicate ValidDirection(direction: string) {
    direction == "asc" || direction == "desc"
  }

  /** The invalid-sort message names every column. */
  lemma InvalidSortMessageListsColumns(c: string)
    requires IsColumn(c)
    ensures Contains(c, InvalidSortMessage)
  {
    var k :| 0 <= k < |ColumnNames| && ColumnNames[k] == c;
    JoinContainsEach(ColumnNames, ", ", k);
    ContainsInContext(c, "Invalid sort field. Valid options are: ", Join(ColumnNames, ", "), ".");
  }

  // ---- validate_data ----

  /** A column `validate_data` insists on: not a primary key, no default, not nullable. */
  predicate IsRequired(c: Column) {
    !(c.primaryKey || c.hasDefault || c.nullable)
  }

  /** The field is in `data` and truthy. */
  predicate Supplied(data: Dict, name: string) {
    name in data && !Falsy(data[name])
  }

  function RequiredMessage(name: string): string {
    Capitalize(name) + " is required."
  }

  /** Column `j` of `cols` is the first required column from `from` on that `data` lacks. */
  predicate FirstMissing(data: Dict, cols: seq<Column>, from: nat, j: int) {
    from <= j < |cols| && IsRequired(cols[j]) && !Supplied(data, cols[j].name) &&
    forall l | from <= l < j :: IsRequired(cols[l]) ==> Supplied(data, cols[l].name)
  }

  /** The loop of `validate_data` over the columns `cols`, from column `i` on. */
  function ValidateFrom(data: Dict, cols: seq<Column>, i: nat): Option<string>
    requires i <= |cols|
    decreases |cols| - i
  {
    if i == |cols| then None
    else
      var c := cols[i];
      if IsRequired(c) && (c.name !in data || Falsy(data[c.name])) then Some(RequiredMessage(c.name))
      else ValidateFrom(data, cols, i + 1)
  }

  /** From column `i` on, the loop reports nothing exactly when every required column is supplied. */
  lemma {:induction false} ValidateFromPassesIffSupplied(data: Dict, cols: seq<Column>, i: nat)
    requires i <= |cols|
    ensures ValidateFrom(data, cols, i).None? <==>
      forall j | i <= j < |cols| :: IsRequired(cols[j]) ==> Supplied(data, cols[j].name)
    decreases |cols| - i
  {
    if i < |cols| {
      ValidateFromPassesIffSupplied(data, cols, i + 1);
    }
  }

  /** From column `i` on, a report names the first required column that is missing or falsy. */
  lemma {:induction false} ValidateFromReportsFirstMissing(data: Dict, cols: seq<Column>, i: nat)
    requires i <= |cols|
    ensures ValidateFrom(data, cols, i).Some? ==>
      exists j :: FirstMissing(data, cols, i, j) && ValidateFrom(data, cols, i).value == RequiredMessage(cols[j].name)
    decreases |cols| - i
  {
    if i < |cols| {
      var c := cols[i];
      if IsRequired(c) && !Supplied(data, c.name) {
        assert FirstMissing(data, cols, i, i);
      } else {
        ValidateFromReportsFirstMissing(data, cols, i + 1);
        var r := ValidateFrom(data, cols, i + 1);
        if r.Some? {
          var j :| FirstMissing(data, cols, i + 1, j) && r.value == RequiredMessage(cols[j].name);
          assert FirstMissing(data, cols, i, j);
        }
      }
    }
  }

  /** `validate_data` checks `title`, `content`, `author`, in that order, and nothing else. */
  lemma ValidationOrder(data: Dict)
    ensures BlogManager.ValidateData(data) ==
      if !Supplied(data, "title") then Some(RequiredMessage("title"))
      else if !Supplied(data, "content") then Some(RequiredMessage("content"))
      else if !Supplied(data, "author") then Some(RequiredMessage("author"))
      else None
  {
    assert ValidateFrom(data, Columns, 4) == None by {
      assert ValidateFrom(data, Columns, 6) == None;
      assert ValidateFrom(data, Columns, 5) == None;
    }
    assert Columns[3] == Column("author", false, false, false);
    assert Columns[2] == Column("content", false, false, false);
    assert Columns[1] == Column("title", false, false, false);
    assert ValidateFrom(data, Columns, 0) == ValidateFrom(data, Columns, 1);
  }

  /** The message for a lower-case column name is the name with its first letter upper-cased, then " is required.". */
  lemma RequiredMessageOfLowerName(name: string)
    requires name != [] && forall i | 0 <= i < |name| :: 'a' <= name[i] <= 'z'
    ensures RequiredMessage(name) == [UpperChar(name[0])] + name[1..] + " is required."
  {
    LowerKeepsLower(name[1..]);
  }

  // ---- add_post ----

  /** The keyword arguments `add_post` builds: the entries of `data` that name a column. */
  function Kwargs(data: Dict): Dict {
    map k | k in data && IsColumn(k) :: data[k]
  }

  /** The key the INSERT gives the new row: an explicit integer `id`, or the next free key. */
  function AssignedKey(data: Dict, nextId: int): int {
    if "id" in data && data["id"].VInt? then data["id"].i else nextId
  }

  /** The row the INSERT writes: the copied columns, the assigned key, `created` defaulting to today. */
  function InsertedRow(data: Dict, key: int, today: CalendarDate): Record {
    var r := Overwrite(Blank, Kwargs(data), ColumnNames);
    r.(id := VInt(key), created := if r.created == VNull then VDate(today) else r.created)
  }

  /**
   * The data `add_post` is modelled on: it passed `validate_data` (stronger
   * than `NOT NULL`: the three text fields are truthy), its values have the
   * column types (no number or boolean left for the store to turn into text),
   * and an explicit id is free, so the INSERT cannot hit an integrity error.
   */
  predicate Insertable(data: Dict, keys: set<int>) {
    // `ValidateData(data) == None`, spelled out as `ValidationOrder` shows it
    Supplied(data, "title") && Supplied(data, "content") && Supplied(data, "author") &&
    (forall c | c in TextColumns && c in data :: data[c].VStr?) &&
    ("id" in data ==> data["id"] == VNull || (data["id"].VInt? && data["id"].i !in keys)) &&
    ("created" in data ==> data["created"] == VNull || data["created"].VDate?) &&
    ("updated" in data ==> data["updated"] == VNull || data["updated"].VDate?)
  }

  /**
   * A new post keeps the title, content and author it was given, gets the
   * assigned key, has `created` = today unless a date was given, and has
   * `updated` = null unless one was given; it is a row the table can hold.
   */
  lemma InsertedRowFromData(data: Dict, keys: set<int>, key: int, today: CalendarDate)
    requires Insertable(data, keys)
    ensures var row := InsertedRow(data, key, today);
      && Storable(row)
      && row.id == VInt(key)
      && row.title == data["title"] && row.content == data["content"] && row.author == data["author"]
      && row.created == (if "created" in data && data["created"] != VNull then data["created"] else VDate(today))
      && row.updated == (if "updated" in data then data["updated"] else VNull)
  {
    var kw := Kwargs(data);
    var r := Overwrite(Blank, kw, ColumnNames);
    OverwriteField(Blank, kw, ColumnNames, "title");
    OverwriteField(Blank, kw, ColumnNames, "content");
    OverwriteField(Blank, kw, ColumnNames, "author");
    OverwriteField(Blank, kw, ColumnNames, "created");
    OverwriteField(Blank, kw, ColumnNames, "updated");
  }

  // ---- update_post ----

  /**
   * The data `update_post` is modelled on: text columns stay text (no number
   * or boolean left for the store to turn into text), `created` stays a date,
   * and a new `id` is an integer that is free, so the flush cannot hit an
   * integrity error. (`updated` is overwritten with today before the flush,
   * so any value is fine.)
   */
  predicate Updatable(data: Dict, postId: int, keys: set<int>) {
    (forall c | c in TextColumns && c in data :: data[c].VStr?) &&
    ("created" in data ==> data["created"].VDate?) &&
    ("id" in data ==> data["id"].VInt? && (data["id"].i == postId || data["id"].i !in keys))
  }

  /** The key a row is stored under after an update: its (possibly rewritten) id. */
  function KeyAfterUpdate(row: Record, postId: int): int {
    if row.id.VInt? then row.id.i else postId
  }

  /** An update the flush accepts turns a stored row into a stored row, under a key that is free or its own. */
  lemma UpdatedRowStorable(r: Record, postId: int, keys: set<int>, data: Dict, today: CalendarDate)
    requires Storable(r) && r.id == VInt(postId) && Updatable(data, postId, keys)
    ensures var row := Patched(r, data, today);
      && Storable(row)
      && row.id.VInt?
      && (KeyAfterUpdate(row, postId) == postId || KeyAfterUpdate(row, postId) !in keys)
  {
    UpdateOverwritesExactly(r, data, today, "id");
    UpdateOverwritesExactly(r, data, today, "title");
    UpdateOverwritesExactly(r, data, today, "content");
    UpdateOverwritesExactly(r, data, today, "author");
    UpdateOverwritesExactly(r, data, today, "created");
    UpdateOverwritesExactly(r, data, today, "updated");
  }

  // ---- the source as written ----

  /**
   * Whether a Post instance has an attribute of this name. Only the answer
   * for `Post` matters here, and no attribute of an instance (column,
   * method, or anything the declarative base adds) is named `Post`.
   */
  predicate HasInstanceAttribute(name: string) {
    name != "Post"
  }

  /** `post.Post.to_dict()` as written: the attribute `Post` is looked up on the instance first. */
  function PostDotPostToDict(r: Record): Result<Dict, string> {
    if HasInstanceAttribute("Post") then Success(ToDict(r))
    else Failure("'Post' object has no attribute 'Post'")
  }

  /** `[post.Post.to_dict() for post in posts]` as written. */
  function SerialiseAsWritten(rows: seq<Record>): Result<seq<Dict>, string>
    decreases |rows|
  {
    if rows == [] then Success([])
    else match (PostDotPostToDict(rows[0]), SerialiseAsWritten(rows[1..]))
      case (Success(d), Success(ds)) => Success([d] + ds)
      case (Failure(e), _) => Failure(e)
      case (_, Failure(e)) => Failure(e)
  }

  /**
   * As written, an instance has no attribute `Post` (so `post.Post.update`
   * fails too) and serialising fails on every post, so listing or searching
   * fails as soon as one post is returned, while `ToDict` (the evident
   * intent) serialises any stored row and reads back to it.
   */
  lemma AsWrittenSerialisationFails(rows: seq<Record>)
    requires rows != []
    ensures !HasInstanceAttribute("Post")
    ensures SerialiseAsWritten(rows).Failure?
    ensures forall i | 0 <= i < |rows| :: PostDotPostToDict(rows[i]).Failure?
  { }

  // ---- the manager ----

  class BlogManager {
    /** The session's view of the `posts` table: primary key to Post object. */
    var table: map<int, Post>
    /** The key the store hands out next. */
    var nextId: int

    /** Each stored post's `id` is its key and its row fits the schema; keys are below `nextId`. */
    ghost predicate Valid()
      reads this, table.Values
    {
      forall k | k in table :: table[k].id == VInt(k) && Storable(table[k].Snapshot()) && k < nextId
    }

    /** The rows of the table. */
    function Rows(): map<int, Record>
      reads this, table.Values
    {
      map k | k in table :: table[k].Snapshot()
    }

    /** `BlogManager(database_url)` on an empty database. */
    constructor ()
      ensures Valid() && Rows() == map[]
    {
      table := map[];
      nextId := 1;
    }

    /** `validate_data`: the message for the first required column missing or falsy, or `None`. */
    static function ValidateData(data: Dict): (r: Option<string>)
      ensures r.None? <==> forall j | 0 <= j < |Columns| :: IsRequired(Columns[j]) ==> Supplied(data, Columns[j].name)
      ensures r.Some? ==> exists j :: FirstMissing(data, Columns, 0, j) && r.value == RequiredMessage(Columns[j].name)
    {
      ValidateFromPassesIffSupplied(data, Columns, 0);
      ValidateFromReportsFirstMissing(data, Columns, 0);
      ValidateFrom(data, Columns, 0)
    }

    /**
     * `get_all_posts(sort, direction)`: an error for an unknown sort field
     * (checked first) or an unknown direction; otherwise every stored post
     * once, ordered by `sort` when one is given.
     */
    method GetAllPosts(sort: Option<string>, direction: string) returns (r: Result<seq<Dict>, string>, ghost ids: seq<int>)
      requires Valid()
      ensures SortRequested(sort) && !IsColumn(sort.value) ==> r == Failure(InvalidSortMessage)
      ensures !(SortRequested(sort) && !IsColumn(sort.value)) && !ValidDirection(direction) ==>
        r == Failure(InvalidDirectionMessage)
      ensures r.Success? <==> (!SortRequested(sort) || IsColumn(sort.value)) && ValidDirection(direction)
      ensures r.Success? ==> Enumerates(ids, Rows().Keys) && |r.value| == |ids|
      ensures r.Success? ==> forall i | 0 <= i < |ids| :: ids[i] in Rows() && r.value[i] == ToDict(Rows()[ids[i]])
      ensures r.Success? && SortRequested(sort) ==>
        forall i, j | 0 <= i < j < |ids| ::
          InOrder(Serialise(Field(Rows()[ids[i]], sort.value)), Serialise(Field(Rows()[ids[j]], sort.value)), direction == "desc")
    {
      ids := [];
      if SortRequested(sort) && !IsColumn(sort.value) {
        return Failure(InvalidSortMessage), [];
      }
      if !ValidDirection(direction) {
        return Failure(InvalidDirectionMessage), [];
      }
      var rows := Rows();
      var view := ViewOf(rows);
      var keys := Scan(table.Keys);
      if SortRequested(sort) {
        var desc := direction == "desc";
        SortOrdersPermutation(keys, view, sort.value, desc);
        PermutedEnumeration(keys, Sort(keys, view, sort.value, desc), table.Keys);
        keys := Sort(keys, view, sort.value, desc);
      }
      EnumeratedMembers(keys, rows.Keys);
      SerialisedRows(keys, rows);
      ids := keys;
      r := Success(DictsOf(keys, view));
    }

    /**
     * `add_post(data)` on data that passed `validate_data`: stores one new
     * post built from the column entries of `data` under a key not in use,
     * leaves every other post as it was, and returns the new post's `to_dict`.
     */
    method AddPost(data: Dict, today: CalendarDate) returns (d: Dict)
      requires Valid() && Insertable(data, table.Keys)
      modifies this
      ensures Valid()
      ensures var key := AssignedKey(data, old(nextId));
        && key !in old(table)
        && Rows() == old(Rows())[key := InsertedRow(data, key, today)]
        && d == ToDict(InsertedRow(data, key, today))
    {
      var key := AssignedKey(data, nextId);
      InsertedRowFromData(data, table.Keys, key, today);
      var post := NewPost(data, key, today);
      Attach(post, key);
      d := ToDict(post.Snapshot());
    }

    /**
     * `Post(**kwargs)` from the column entries of `data`, as the INSERT
     * completes it: the key `key` and, unless one was given, `created` = today.
     */
    static method NewPost(data: Dict, key: int, today: CalendarDate) returns (post: Post)
      ensures fresh(post) && post.Snapshot() == InsertedRow(data, key, today)
    {
      var kwargs := Kwargs(data);
      post := new Post(kwargs);
      post.id := VInt(key);
      if post.created == VNull {
        post.created := VDate(today);
      }
    }

    /** `session.add(post)` and the INSERT of the commit, for a post already keyed `key`. */
    method Attach(post: Post, key: int)
      requires Valid() && key !in table && post !in table.Values
      requires post.id == VInt(key) && Storable(post.Snapshot())
      modifies this
      ensures Valid()
      ensures Rows() == old(Rows())[key := post.Snapshot()]
    {
      ghost var before := Rows();
      table := table[key := post];
      if nextId <= key {
        nextId := key + 1;
      }
      forall k | k in table
        ensures Rows()[k] == before[key := post.Snapshot()][k]
      {
        if k != key {
          assert table[k] == old(table)[k];
        }
      }
    }

    /** `get_post_by_id(post_id)`: the stored post, or null when there is none. */
    method GetPostById(postId: int) returns (post: Post?)
      ensures postId in table ==> post == table[postId]
      ensures postId !in table ==> post == null
    {
      post := if postId in table then table[postId] else null;
    }

    /**
     * `update_post(post_id, data)`: `None` and no change for a missing id;
     * otherwise that post alone changes, as `Post.update` says (moving to a
     * new key when `data` rewrites its id), and its `to_dict` is returned.
     */
    method UpdatePost(postId: int, data: Dict, today: CalendarDate) returns (result: Option<Dict>)
      requires Valid()
      requires postId in table ==> Updatable(data, postId, table.Keys)
      modifies this, table.Values
      ensures Valid()
      ensures postId !in old(table) ==> result == None && Rows() == old(Rows())
      ensures postId in old(table) ==>
        var row := Patched(old(Rows())[postId], data, today);
        var key := KeyAfterUpdate(row, postId);
        && (key == postId || key !in old(table))
        && Rows() == (old(Rows()) - {postId})[key := row]
        && result == Some(ToDict(row))
    {
      var post := GetPostById(postId);
      if post == null {
        return None;
      }
      ghost var before := Rows();
      ghost var row := Patched(before[postId], data, today);
      UpdatedRowStorable(before[postId], postId, table.Keys, data, today);
      forall k | k in table && k != postId
        ensures table[k] != post
      {
        assert table[k].id == VInt(k);
      }
      post.Update(data, today);
      ghost var after := Rows();
      assert after == before[postId := row] by {
        assert post.Snapshot() == row;
      }
      var key := post.id.i;
      Rekey(postId, key);
      assert after - {postId} == before - {postId};
      result := Some(ToDict(post.Snapshot()));
    }

    /** The flush of an updated post: its row moves to `key` when its id changed. */
    method Rekey(postId: int, key: int)
      requires postId in table && postId < nextId
      requires forall k | k in table && k != postId ::
        table[k] != table[postId] && table[k].id == VInt(k) && Storable(table[k].Snapshot()) && k < nextId
      requires table[postId].id == VInt(key) && Storable(table[postId].Snapshot())
      requires key == postId || key !in table
      modifies this
      ensures Valid()
      ensures Rows() == (old(Rows()) - {postId})[key := old(Rows())[postId]]
    {
      if key != postId {
        table := (table - {postId})[key := table[postId]];
        if nextId <= key {
          nextId := key + 1;
        }
      }
    }

    /** `delete_post(post_id)`: `false` and no change for a missing id, otherwise `true` and that post alone is gone. */
    method DeletePost(postId: int) returns (deleted: bool)
      requires Valid()
      modifies this
      ensures Valid()
      ensures deleted <==> postId in old(table)
      ensures Rows() == old(Rows()) - {postId}
    {
      var post := GetPostById(postId);
      if post == null {
        return false;
      }
      table := table - {postId};
      return true;
    }

    /**
     * `search_posts(query)`: every stored post for which each `(field,
     * pattern)` of the query names a column whose text contains the pattern,
     * ignoring ASCII case; each such post once. A field that is not a column
     * is an error.
     */
    method SearchPosts(query: map<string, string>) returns (r: Result<seq<Dict>, string>, ghost ids: seq<int>)
      requires Valid()
      ensures r.Failure? <==> exists f :: f in query && !IsColumn(f)
      ensures r.Failure? ==> exists f :: f in query && !IsColumn(f) && r.error == UnknownFieldMessage(f)
      ensures r.Success? ==> Enumerates(ids, Matching(Rows(), query)) && |r.value| == |ids|
      ensures r.Success? ==> forall i | 0 <= i < |ids| :: ids[i] in Rows() && r.value[i] == ToDict(Rows()[ids[i]])
      ensures query == map[] ==> r.Success? && Enumerates(ids, Rows().Keys)
    {
      ids := [];
      var unknown := set f | f in query && !IsColumn(f);
      if unknown != {} {
        assert (forall f :: f !in unknown) ==> unknown == {};
        var f :| f in unknown;
        return Failure(UnknownFieldMessage(f)), [];
      }
      forall f | f in query ensures IsColumn(f) {
        assert f !in unknown;
      }
      var rows := Rows();
      var view := ViewOf(rows);
      var keys := Scan(table.Keys);
      keys := Filter(keys, rows, query);
      ghost var matching := Matching(rows, query);
      assert Enumerates(keys, matching);
      EnumeratedMembers(keys, matching);
      SerialisedRows(keys, rows);
      ids := keys;
      r := Success(DictsOf(keys, view));
      if query == map[] {
        assert matching == rows.Keys;
      }
    }
  }
}
