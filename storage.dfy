/**
 * The `posts` table and its `Post` model: the column table, the record a
 * Post's attributes form, `to_dict` and `update`.
 */
module Storage {
  import opened Wrappers
  import opened Text
  import opened Dates
  import opened Values

  /** One column of the `posts` table with the properties `validate_data` inspects. */
  datatype Column = Column(name: string, primaryKey: bool, hasDefault: bool, nullable: bool)

  /** The columns in declaration order. */
  const Columns: seq<Column> := [
    Column("id", true, false, false),
    Column("title", false, false, false),
    Column("content", false, false, false),
    Column("author", false, false, false),
    Column("created", false, true, false),
    Column("updated", false, false, true)
  ]

  const ColumnNames: seq<string> := ["id", "title", "content", "author", "created", "updated"]

  /** The columns declared `String, nullable=False`. */
  const TextColumns: seq<string> := ["title", "content", "author"]

  predicate IsColumn(name: string) {
    name in ColumnNames
  }

  /** A Post's six attributes, as one value. */
  datatype Record = Record(id: Value, title: Value, content: Value, author: Value, created: Value, updated: Value)

  /** A freshly constructed Post before any attribute is set. */
  const Blank := Record(VNull, VNull, VNull, VNull, VNull, VNull)

  /** `getattr(post, name)` for a column name. */
  function Field(r: Record, name: string): Value
    requires IsColumn(name)
  {
    if name == "id" then r.id
    else if name == "title" then r.title
    else if name == "content" then r.content
    else if name == "author" then r.author
    else if name == "created" then r.created
    else r.updated
  }

  /** `setattr(post, name, v)` for a column name. */
  function SetField(r: Record, name: string, v: Value): Record
    requires IsColumn(name)
  {
    if name == "id" then r.(id := v)
    else if name == "title" then r.(title := v)
    else if name == "content" then r.(content := v)
    else if name == "author" then r.(author := v)
    else if name == "created" then r.(created := v)
    else r.(updated := v)
  }

  lemma FieldOfSetField(r: Record, name: string, v: Value, c: string)
    requires IsColumn(name) && IsColumn(c)
    ensures Field(SetField(r, name, v), c) == if c == name then v else Field(r, c)
  {
    if c == name {
      assert Field(SetField(r, name, v), name) == v;
    }
  }

  /** Two records that agree on every column are the same record. */
  lemma RecordsAgreeing(r: Record, s: Record)
    requires forall c | IsColumn(c) :: Field(r, c) == Field(s, c)
    ensures r == s
  {
    assert Field(r, "id") == Field(s, "id");
    assert Field(r, "title") == Field(s, "title");
    assert Field(r, "content") == Field(s, "content");
    assert Field(r, "author") == Field(s, "author");
    assert Field(r, "created") == Field(s, "created");
    assert Field(r, "updated") == Field(s, "updated");
  }

  /**
   * The loop `for column in columns: if column.name in data: setattr(...)`
   * run over the column names `names`, in order.
   */
  function Overwrite(r: Record, data: Dict, names: seq<string>): Record
    requires forall n | n in names :: IsColumn(n)
    decreases |names|
  {
    if names == [] then r
    else
      var last := names[|names| - 1];
      var prev := Overwrite(r, data, names[..|names| - 1]);
      if last in data then SetField(prev, last, data[last]) else prev
  }

  /** After the loop, a column holds `data`'s value exactly when the loop visited it and `data` has it. */
  lemma {:induction false} OverwriteField(r: Record, data: Dict, names: seq<string>, c: string)
    requires forall n | n in names :: IsColumn(n)
    requires IsColumn(c)
    ensures Field(Overwrite(r, data, names), c) == if c in names && c in data then data[c] else Field(r, c)
    decreases |names|
  {
    if names != [] {
      var init := names[..|names| - 1];
      assert forall n | n in init :: n in names;
      OverwriteField(r, data, init, c);
      var last := names[|names| - 1];
      assert c in names <==> c in init || c == last;
      if last in data {
        FieldOfSetField(Overwrite(r, data, init), last, data[last], c);
      }
    }
  }

  /** The loop over all columns starting from a blank record takes each column from `data`, or leaves it `None`. */
  lemma OverwriteBlank(data: Dict)
    ensures Overwrite(Blank, data, ColumnNames) == Record(
      if "id" in data then data["id"] else VNull,
      if "title" in data then data["title"] else VNull,
      if "content" in data then data["content"] else VNull,
      if "author" in data then data["author"] else VNull,
      if "created" in data then data["created"] else VNull,
      if "updated" in data then data["updated"] else VNull)
  {
    var built := Record(
      if "id" in data then data["id"] else VNull,
      if "title" in data then data["title"] else VNull,
      if "content" in data then data["content"] else VNull,
      if "author" in data then data["author"] else VNull,
      if "created" in data then data["created"] else VNull,
      if "updated" in data then data["updated"] else VNull);
    forall c | IsColumn(c)
      ensures Field(Overwrite(Blank, data, ColumnNames), c) == Field(built, c)
    {
      OverwriteField(Blank, data, ColumnNames, c);
    }
    RecordsAgreeing(Overwrite(Blank, data, ColumnNames), built);
  }

  /** `Post.update(data)` with `date.today()` given as `today`. */
  function Patched(r: Record, data: Dict, today: CalendarDate): Record {
    SetField(Overwrite(r, data, ColumnNames), "updated", VDate(today))
  }

  /**
   * Update overwrites a column if and only if its name is a key of `data`
   * (`id` included), keeps every other column, and always ends with
   * `updated` set to today, whatever `data` says about `updated`.
   */
  lemma UpdateOverwritesExactly(r: Record, data: Dict, today: CalendarDate, c: string)
    requires IsColumn(c)
    ensures c != "updated" ==> Field(Patched(r, data, today), c) == if c in data then data[c] else Field(r, c)
    ensures Patched(r, data, today).updated == VDate(today)
  {
    OverwriteField(r, data, ColumnNames, c);
    FieldOfSetField(Overwrite(r, data, ColumnNames), "updated", VDate(today), c);
  }

  /** Keys of `data` that name no column make no difference to an update. */
  lemma UpdateIgnoresUnknownKeys(r: Record, data: Dict, today: CalendarDate)
    ensures Patched(r, data, today) == Patched(r, map k | k in data && IsColumn(k) :: data[k], today)
  {
    var kept := map k | k in data && IsColumn(k) :: data[k];
    forall c | IsColumn(c)
      ensures Field(Patched(r, data, today), c) == Field(Patched(r, kept, today), c)
    {
      UpdateOverwritesExactly(r, data, today, c);
      UpdateOverwritesExactly(r, kept, today, c);
    }
    RecordsAgreeing(Patched(r, data, today), Patched(r, kept, today));
  }

  /** An update with no data changes nothing but the `updated` date. */
  lemma UpdateWithNoData(r: Record, today: CalendarDate)
    ensures Patched(r, map[], today) == r.(updated := VDate(today))
  {
    forall c | IsColumn(c)
      ensures Field(Patched(r, map[], today), c) == Field(r.(updated := VDate(today)), c)
    {
      UpdateOverwritesExactly(r, map[], today, c);
    }
    RecordsAgreeing(Patched(r, map[], today), r.(updated := VDate(today)));
  }

  /** The form a value takes in `to_dict`: dates become ISO text, everything else is kept. */
  function Serialise(v: Value): Value {
    if v.VDate? then VStr(Iso(v.d)) else v
  }

  /** `Post.to_dict()`: one entry per column. */
  function ToDict(r: Record): Dict {
    map c | c in ColumnNames :: Serialise(Field(r, c))
  }

  /**
   * `to_dict` has exactly the six column names as keys; a date column becomes
   * ISO `YYYY-MM-DD` text that parses back to the date; every other value,
   * `None` included, passes through unchanged.
   */
  lemma ToDictShape(r: Record, c: string)
    ensures ToDict(r).Keys == {"id", "title", "content", "author", "created", "updated"}
    ensures IsColumn(c) && !Field(r, c).VDate? ==> ToDict(r)[c] == Field(r, c)
    ensures IsColumn(c) && Field(r, c).VDate? ==>
      ToDict(r)[c].VStr? && IsIsoDateText(ToDict(r)[c].s) && ParseIso(ToDict(r)[c].s) == Some(Field(r, c).d)
  {
    if IsColumn(c) && Field(r, c).VDate? {
      IsoRoundTrip(Field(r, c).d);
    }
  }

  /** A row the table can hold: the column types the schema declares, `NOT NULL` respected. */
  predicate Storable(r: Record) {
    r.id.VInt? && r.title.VStr? && r.content.VStr? && r.author.VStr? &&
    r.created.VDate? && (r.updated.VNull? || r.updated.VDate?)
  }

  /** Reads a serialised date column back: ISO text to a date, `None` kept. */
  function DateFromJson(v: Value): Option<Value> {
    match v
    case VNull => Some(VNull)
    case VStr(s) => (match ParseIso(s) case Some(d) => Some(VDate(d)) case None => None)
    case _ => None
  }

  /** Reads a serialised post back into a record. */
  function FromDict(d: Dict): Option<Record> {
    if !(forall c | c in ColumnNames :: c in d) then None
    else
      match (DateFromJson(d["created"]), DateFromJson(d["updated"]))
      case (Some(created), Some(updated)) =>
        Some(Record(d["id"], d["title"], d["content"], d["author"], created, updated))
      case _ => None
  }

  /** `to_dict` loses nothing about a stored row: reading it back gives the row. */
  lemma ToDictRoundTrip(r: Record)
    requires Storable(r)
    ensures FromDict(ToDict(r)) == Some(r)
  {
    var d := ToDict(r);
    assert forall c | c in ColumnNames :: c in d;
    assert d["id"] == r.id && d["title"] == r.title && d["content"] == r.content && d["author"] == r.author;
    assert d["created"] == Serialise(r.created) && d["updated"] == Serialise(r.updated);
    DateReadsBack(r.created);
    DateReadsBack(r.updated);
  }

  lemma DateReadsBack(v: Value)
    requires v.VNull? || v.VDate?
    ensures DateFromJson(Serialise(v)) == Some(v)
  {
    if v.VDate? {
      IsoRoundTrip(v.d);
    }
  }

  /** Rows with the same serialised form are the same row. */
  lemma ToDictInjective(r: Record, s: Record)
    requires Storable(r) && Storable(s) && ToDict(r) == ToDict(s)
    ensures r == s
  {
    ToDictRoundTrip(r);
    ToDictRoundTrip(s);
  }

  /** A Post object: its six mapped attributes. */
  class Post {
    var id: Value
    var title: Value
    var content: Value
    var author: Value
    var created: Value
    var updated: Value

    function Snapshot(): Record
      reads this
    {
      Record(id, title, content, author, created, updated)
    }

    /** `Post(**kwargs)`: the given columns are set, the others are `None` until the row is flushed. */
    constructor (kwargs: Dict)
      requires forall k | k in kwargs :: IsColumn(k)
      ensures Snapshot() == Overwrite(Blank, kwargs, ColumnNames)
    {
      id := if "id" in kwargs then kwargs["id"] else VNull;
      title := if "title" in kwargs then kwargs["title"] else VNull;
      content := if "content" in kwargs then kwargs["content"] else VNull;
      author := if "author" in kwargs then kwargs["author"] else VNull;
      created := if "created" in kwargs then kwargs["created"] else VNull;
      updated := if "updated" in kwargs then kwargs["updated"] else VNull;
      OverwriteBlank(kwargs);
    }

    /** `setattr(self, name, v)`. */
    method SetAttr(name: string, v: Value)
      requires IsColumn(name)
      modifies this
      ensures Snapshot() == SetField(old(Snapshot()), name, v)
    {
      if name == "id" {
        id := v;
      } else if name == "title" {
        title := v;
      } else if name == "content" {
        content := v;
      } else if name == "author" {
        author := v;
      } else if name == "created" {
        created := v;
      } else {
        updated := v;
      }
    }

    /** `update(data)`: copy every column `data` names, then stamp `updated` with today. */
    method Update(data: Dict, today: CalendarDate)
      modifies this
      ensures Snapshot() == Patched(old(Snapshot()), data, today)
      ensures updated == VDate(today)
    {
      for i := 0 to |ColumnNames|
        invariant Snapshot() == Overwrite(old(Snapshot()), data, ColumnNames[..i])
      {
        var name := ColumnNames[i];
        assert ColumnNames[..i + 1][..i] == ColumnNames[..i];
        if name in data {
          SetAttr(name, data[name]);
        }
      }
      assert ColumnNames[..|ColumnNames|] == ColumnNames;
      updated := VDate(today);
    }
  }
}
