/**
 * The image_cache table of the SQLite cache database, as rows in insertion
 * order: an AUTOINCREMENT id, the (url, width) key declared UNIQUE, the two
 * nullable blob columns, the content type, the response format and the
 * second-resolution created_at timestamp.  The database clock is part of
 * the state; it only moves forward.
 */
module ImageTable {
  import opened Wrappers

  type Blob = seq<bv8>

  /** A row; a NULL blob column is None. */
  datatype Row = Row(
    id: nat,
    url: string,
    width: int,
    original: Option<Blob>,
    resized: Option<Blob>,
    contentType: string,
    format: string,
    createdAt: nat)

  predicate Matches(r: Row, url: string, width: int)
  {
    r.url == url && r.width == width
  }

  /** UNIQUE(url, width): no two rows share a key. */
  predicate UniqueKeys(rows: seq<Row>)
  {
    forall i, j :: 0 <= i < j < |rows| ==> !Matches(rows[j], rows[i].url, rows[i].width)
  }

  /** Ids grow along the table and lie below the next id to be handed out. */
  predicate IdsIncreasing(rows: seq<Row>, nextId: nat)
  {
    && (forall i, j :: 0 <= i < j < |rows| ==> rows[i].id < rows[j].id)
    && (forall i :: 0 <= i < |rows| ==> rows[i].id < nextId)
  }

  /** Timestamps never decrease along the table and never exceed the clock. */
  predicate OldestFirst(rows: seq<Row>, clock: nat)
  {
    && (forall i, j :: 0 <= i < j < |rows| ==> rows[i].createdAt <= rows[j].createdAt)
    && (forall i :: 0 <= i < |rows| ==> rows[i].createdAt <= clock)
  }

  predicate TableInvariant(rows: seq<Row>, nextId: nat, clock: nat)
  {
    UniqueKeys(rows) && IdsIncreasing(rows, nextId) && OldestFirst(rows, clock)
  }

  /** The table without the row of a key, the others in their order. */
  function Without(rows: seq<Row>, url: string, width: int): (r: seq<Row>)
    ensures forall x :: x in r <==> x in rows && !Matches(x, url, width)
    ensures |r| <= |rows|
  {
    if |rows| == 0 then []
    else if Matches(rows[0], url, width) then Without(rows[1..], url, width)
    else [rows[0]] + Without(rows[1..], url, width)
  }

  /** The first row of a key; the table holds at most one. */
  function Find(rows: seq<Row>, url: string, width: int): (r: Option<Row>)
    ensures r.Some? ==> r.value in rows && Matches(r.value, url, width)
    ensures r.None? <==> forall x :: x in rows ==> !Matches(x, url, width)
  {
    if |rows| == 0 then None
    else if Matches(rows[0], url, width) then Some(rows[0])
    else Find(rows[1..], url, width)
  }

  /**
   * INSERT OR REPLACE: the row of the key is deleted and a new row is
   * appended with the next id, the current time and exactly the supplied
   * columns (the others NULL).
   */
  function InsertOrReplace(rows: seq<Row>, id: nat, now: nat, url: string, width: int,
                           original: Option<Blob>, resized: Option<Blob>,
                           contentType: string, format: string): (r: seq<Row>)
    ensures |r| > 0 && r[|r| - 1] == Row(id, url, width, original, resized, contentType, format, now)
    ensures forall x :: x in r <==>
              x == Row(id, url, width, original, resized, contentType, format, now) || (x in rows && !Matches(x, url, width))
  {
    Without(rows, url, width) + [Row(id, url, width, original, resized, contentType, format, now)]
  }

  /** What a SELECT of one blob column with content type and format yields. */
  datatype Lookup = NoRow | Found(data: Option<Blob>, contentType: string, format: string)

  /** The cache read: width 0 reads the original_data column, any other width resized_data. */
  function Select(rows: seq<Row>, url: string, width: int): (r: Lookup)
    ensures r.NoRow? <==> forall x :: x in rows ==> !Matches(x, url, width)
    ensures r.Found? ==> exists x :: x in rows && Matches(x, url, width)
                                   && r == Found(if width == 0 then x.original else x.resized, x.contentType, x.format)
  {
    match Find(rows, url, width)
    case None => NoRow
    case Some(r) => Found(if width == 0 then r.original else r.resized, r.contentType, r.format)
  }

  /** How many rows a cleanup deletes from n rows: half, rounded down, but at least one. */
  function DeleteCount(n: nat): (k: nat)
    ensures n > 0 ==> 1 <= k <= n
  {
    if n / 2 == 0 then 1 else n / 2
  }

  /** DELETE ... ORDER BY created_at ASC LIMIT k, rows of equal age taken in table order. */
  function EvictOldest(rows: seq<Row>): (r: seq<Row>)
    ensures |r| <= |rows| && r == rows[|rows| - |r|..]
    ensures |rows| > 0 ==> |r| == |rows| - DeleteCount(|rows|) < |rows|
    ensures |rows| == 0 ==> r == []
  {
    if |rows| == 0 then rows else rows[DeleteCount(|rows|)..]
  }

  // ---------------------------------------------------------------------
  // Properties of the table operations
  // ---------------------------------------------------------------------

  lemma {:induction false} FindAppend(rows: seq<Row>, x: Row, url: string, width: int)
    requires Find(rows, url, width).None?
    ensures Find(rows + [x], url, width) == if Matches(x, url, width) then Some(x) else None
  {
    if |rows| == 0 {
      assert rows + [x] == [x];
    } else {
      assert (rows + [x])[1..] == rows[1..] + [x];
      FindAppend(rows[1..], x, url, width);
    }
  }

  lemma {:induction false} FindWithout(rows: seq<Row>, url: string, width: int, url': string, width': int)
    requires url != url' || width != width'
    ensures Find(Without(rows, url, width), url', width') == Find(rows, url', width')
  {
    if |rows| > 0 {
      FindWithout(rows[1..], url, width, url', width');
      if !Matches(rows[0], url, width) {
        var r := [rows[0]] + Without(rows[1..], url, width);
        assert r[1..] == Without(rows[1..], url, width);
      }
    }
  }

  /** The head of a table precedes every later row. */
  predicate Precedes(h: Row, rest: seq<Row>)
  {
    forall x :: x in rest ==> !Matches(x, h.url, h.width) && h.id < x.id && h.createdAt <= x.createdAt
  }

  lemma TailInvariant(rows: seq<Row>, nextId: nat, clock: nat)
    requires TableInvariant(rows, nextId, clock) && |rows| > 0
    ensures TableInvariant(rows[1..], nextId, clock)
    ensures Precedes(rows[0], rows[1..])
  {
    var tail := rows[1..];
    assert forall i :: 0 <= i < |tail| ==> tail[i] == rows[i + 1];
    forall x | x in tail
      ensures !Matches(x, rows[0].url, rows[0].width) && rows[0].id < x.id && rows[0].createdAt <= x.createdAt
    {
      var k :| 0 <= k < |tail| && tail[k] == x;
      assert rows[k + 1] == x;
    }
  }

  lemma ConsInvariant(h: Row, rest: seq<Row>, nextId: nat, clock: nat)
    requires TableInvariant(rest, nextId, clock) && Precedes(h, rest)
    requires h.id < nextId && h.createdAt <= clock
    ensures TableInvariant([h] + rest, nextId, clock)
  {
    ConsUnique(h, rest);
    ConsIds(h, rest, nextId);
    ConsOldestFirst(h, rest, clock);
  }

  lemma ConsUnique(h: Row, rest: seq<Row>)
    requires UniqueKeys(rest) && Precedes(h, rest)
    ensures UniqueKeys([h] + rest)
  {
    var r := [h] + rest;
    forall i, j | 0 <= i < j < |r| ensures !Matches(r[j], r[i].url, r[i].width)
    {
      assert r[j] == rest[j - 1] && rest[j - 1] in rest;
      if i > 0 {
        assert r[i] == rest[i - 1];
      }
    }
  }

  lemma ConsIds(h: Row, rest: seq<Row>, nextId: nat)
    requires IdsIncreasing(rest, nextId) && Precedes(h, rest) && h.id < nextId
    ensures IdsIncreasing([h] + rest, nextId)
  {
    var r := [h] + rest;
    forall i, j | 0 <= i < j < |r| ensures r[i].id < r[j].id
    {
      assert r[j] == rest[j - 1] && rest[j - 1] in rest;
      if i > 0 {
        assert r[i] == rest[i - 1];
      }
    }
    forall i | 0 < i < |r| ensures r[i].id < nextId
    {
      assert r[i] == rest[i - 1];
    }
  }

  lemma ConsOldestFirst(h: Row, rest: seq<Row>, clock: nat)
    requires OldestFirst(rest, clock) && Precedes(h, rest) && h.createdAt <= clock
    ensures OldestFirst([h] + rest, clock)
  {
    var r := [h] + rest;
    forall i, j | 0 <= i < j < |r| ensures r[i].createdAt <= r[j].createdAt
    {
      assert r[j] == rest[j - 1] && rest[j - 1] in rest;
      if i > 0 {
        assert r[i] == rest[i - 1];
      }
    }
    forall i | 0 < i < |r| ensures r[i].createdAt <= clock
    {
      assert r[i] == rest[i - 1];
    }
  }

  lemma {:induction false} WithoutKeepsInvariant(rows: seq<Row>, url: string, width: int, nextId: nat, clock: nat)
    requires TableInvariant(rows, nextId, clock)
    ensures TableInvariant(Without(rows, url, width), nextId, clock)
  {
    if |rows| > 0 {
      TailInvariant(rows, nextId, clock);
      WithoutKeepsInvariant(rows[1..], url, width, nextId, clock);
      if !Matches(rows[0], url, width) {
        ConsInvariant(rows[0], Without(rows[1..], url, width), nextId, clock);
      }
    }
  }

  /**
   * INSERT OR REPLACE keeps the table invariant when the new row takes the
   * next id and the current time, and the next id then moves on by one.
   */
  lemma InsertOrReplaceKeepsInvariant(rows: seq<Row>, nextId: nat, clock: nat, url: string, width: int,
                                      original: Option<Blob>, resized: Option<Blob>,
                                      contentType: string, format: string)
    requires TableInvariant(rows, nextId, clock)
    ensures TableInvariant(InsertOrReplace(rows, nextId, clock, url, width, original, resized, contentType, format),
                           nextId + 1, clock)
  {
    WithoutKeepsInvariant(rows, url, width, nextId, clock);
    var kept := Without(rows, url, width);
    forall i | 0 <= i < |kept| ensures !Matches(kept[i], url, width)
    {
      assert kept[i] in kept;
    }
    SnocInvariant(kept, Row(nextId, url, width, original, resized, contentType, format, clock), nextId, clock);
  }

  /** Appending a row of a new key with the next id at the current time keeps the invariant. */
  lemma SnocInvariant(rows: seq<Row>, x: Row, nextId: nat, clock: nat)
    requires TableInvariant(rows, nextId, clock)
    requires forall i :: 0 <= i < |rows| ==> !Matches(rows[i], x.url, x.width)
    requires x.id == nextId && x.createdAt == clock
    ensures TableInvariant(rows + [x], nextId + 1, clock)
  {
    var r := rows + [x];
    forall i, j | 0 <= i < j < |r|
      ensures !Matches(r[j], r[i].url, r[i].width) && r[i].id < r[j].id && r[i].createdAt <= r[j].createdAt
    {
      assert r[i] == rows[i];
      if j < |rows| {
        assert r[j] == rows[j];
      }
    }
    assert forall i :: 0 <= i < |rows| ==> r[i] == rows[i];
  }

  /** After INSERT OR REPLACE the key holds exactly the new row and every other key reads as before. */
  lemma InsertOrReplaceThenFind(rows: seq<Row>, id: nat, now: nat, url: string, width: int,
                                original: Option<Blob>, resized: Option<Blob>,
                                contentType: string, format: string, url': string, width': int)
    ensures var after := InsertOrReplace(rows, id, now, url, width, original, resized, contentType, format);
            Find(after, url', width')
            == if url' == url && width' == width
               then Some(Row(id, url, width, original, resized, contentType, format, now))
               else Find(rows, url', width')
  {
    var kept := Without(rows, url, width);
    var x := Row(id, url, width, original, resized, contentType, format, now);
    if url' == url && width' == width {
      FindAppend(kept, x, url, width);
    } else {
      FindWithout(rows, url, width, url', width');
      if Find(kept, url', width').None? {
        FindAppend(kept, x, url', width');
      } else {
        FindPrefix(kept, [x], url', width');
      }
    }
  }

  lemma {:induction false} FindPrefix(a: seq<Row>, b: seq<Row>, url: string, width: int)
    requires Find(a, url, width).Some?
    ensures Find(a + b, url, width) == Find(a, url, width)
  {
    if !Matches(a[0], url, width) {
      assert (a + b)[1..] == a[1..] + b;
      FindPrefix(a[1..], b, url, width);
    }
  }

  /**
   * Read after write: a resized write at a width other than 0 reads back as
   * its resized data, an original write at width 0 reads back as its data,
   * and a write leaves every other key's read unchanged.
   */
  lemma ReadAfterWrite(rows: seq<Row>, id: nat, now: nat, url: string, width: int,
                       original: Option<Blob>, resized: Option<Blob>,
                       contentType: string, format: string, url': string, width': int)
    ensures var after := InsertOrReplace(rows, id, now, url, width, original, resized, contentType, format);
            && (width != 0 ==> Select(after, url, width) == Found(resized, contentType, format))
            && (width == 0 ==> Select(after, url, width) == Found(original, contentType, format))
            && (url' != url || width' != width ==> Select(after, url', width') == Select(rows, url', width'))
  {
    InsertOrReplaceThenFind(rows, id, now, url, width, original, resized, contentType, format, url, width);
    InsertOrReplaceThenFind(rows, id, now, url, width, original, resized, contentType, format, url', width');
  }

  /** A key that has no row reads as no row, not as an error. */
  lemma MissingKeyReadsNoRow(rows: seq<Row>, url: string, width: int)
    requires forall i :: 0 <= i < |rows| ==> !Matches(rows[i], url, width)
    ensures Select(rows, url, width) == NoRow
  {
    forall x | x in rows ensures !Matches(x, url, width)
    {
      var k :| 0 <= k < |rows| && rows[k] == x;
    }
  }

  /**
   * The eviction: nothing happens on an empty table; otherwise exactly
   * half the rows (at least one) go, they are the oldest (none is younger
   * than a kept row), the kept rows are untouched, and the invariant holds.
   */
  lemma EvictOldestSpec(rows: seq<Row>, nextId: nat, clock: nat)
    requires TableInvariant(rows, nextId, clock)
    ensures |rows| == 0 ==> EvictOldest(rows) == rows
    ensures |rows| > 0 ==> |rows| - |EvictOldest(rows)| == DeleteCount(|rows|)
    ensures |rows| == 1 ==> EvictOldest(rows) == []
    ensures |rows| >= 2 ==> 2 * (|rows| - |EvictOldest(rows)|) <= |rows| < 2 * (|rows| - |EvictOldest(rows)|) + 2
    ensures EvictOldest(rows) == rows[|rows| - |EvictOldest(rows)|..]
    ensures forall i, j :: 0 <= i < |rows| - |EvictOldest(rows)| <= j < |rows| ==> rows[i].createdAt <= rows[j].createdAt
    ensures TableInvariant(EvictOldest(rows), nextId, clock)
  {
    if |rows| > 0 {
      var k := DeleteCount(|rows|);
      var kept := rows[k..];
      assert forall i :: 0 <= i < |kept| ==> kept[i] == rows[i + k];
    }
  }

  // ---------------------------------------------------------------------
  // The database
  // ---------------------------------------------------------------------

  /** The cache database: its table, the next AUTOINCREMENT id and the clock in seconds. */
  class Database {
    var rows: seq<Row>
    var nextId: nat
    var clock: nat

    ghost predicate Valid()
      reads this
    {
      TableInvariant(rows, nextId, clock)
    }

    /** A freshly created, empty table. */
    constructor (now: nat)
      ensures Valid() && rows == [] && nextId == 1 && clock == now
    {
      rows, nextId, clock := [], 1, now;
    }

    /** Time passes. */
    method Tick(seconds: nat)
      requires Valid()
      modifies this
      ensures Valid()
      ensures clock == old(clock) + seconds && rows == old(rows) && nextId == old(nextId)
    {
      clock := clock + seconds;
    }

    /** Executes an INSERT OR REPLACE at the current time. */
    method Upsert(url: string, width: int, original: Option<Blob>, resized: Option<Blob>,
                  contentType: string, format: string)
      requires Valid()
      modifies this
      ensures Valid()
      ensures rows == InsertOrReplace(old(rows), old(nextId), clock, url, width, original, resized, contentType, format)
      ensures nextId == old(nextId) + 1 && clock == old(clock)
    {
      InsertOrReplaceKeepsInvariant(rows, nextId, clock, url, width, original, resized, contentType, format);
      rows := InsertOrReplace(rows, nextId, clock, url, width, original, resized, contentType, format);
      nextId := nextId + 1;
    }

    /** Executes the oldest-first DELETE of a cleanup. */
    method DeleteOldest()
      requires Valid()
      modifies this
      ensures Valid()
      ensures rows == EvictOldest(old(rows)) && nextId == old(nextId) && clock == old(clock)
    {
      EvictOldestSpec(rows, nextId, clock);
      rows := EvictOldest(rows);
    }
  }
}
