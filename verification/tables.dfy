/**
 The four feed-rate tables of tables.h (millimetre feed, millimetre thread,
 inch feed, inch thread). Their contents are configuration data that is not
 part of this model, so they are a parameter: any four tables of rows of three
 display digits and a 16.16 fixed-point ratio.
 */
module Tables {
  import opened Word

  /** One row: the three 7-segment code digits shown and the ratio to run. */
  datatype Row = Row(dig1: U8, dig10: U8, dig100: U8, ratio: U32)

  type Table = seq<Row>

  datatype FeedTables = FeedTables(mmFeed: Table, mmThread: Table, inchFeed: Table, inchThread: Table)

  /**
   What the firmware assumes of the tables: none is empty, and each one's row
   count fits the uint8_t `tableSize` it is stored in.
   */
  predicate Valid(t: FeedTables)
  {
    && 1 <= |t.mmFeed| < TWO8
    && 1 <= |t.mmThread| < TWO8
    && 1 <= |t.inchFeed| < TWO8
    && 1 <= |t.inchThread| < TWO8
  }

  /** The table a units index selects (main.c's if/else chain on displayUnits). */
  function ForUnits(t: FeedTables, units: int): (table: Table)
    requires 0 <= units <= 3
    requires Valid(t)
    ensures 1 <= |table| < TWO8
    ensures units == 0 ==> table == t.mmFeed
    ensures units == 1 ==> table == t.mmThread
    ensures units == 2 ==> table == t.inchFeed
    ensures units == 3 ==> table == t.inchThread
  {
    if units == 0 then t.mmFeed
    else if units == 1 then t.mmThread
    else if units == 2 then t.inchFeed
    else t.inchThread
  }

  /**
   `table[i]` in C. An index outside the array is a read past its end, whose
   value C leaves undefined; the model returns None for it.
   */
  function RowAt(table: Table, i: int): (r: Option<Row>)
    ensures r.Some? <==> 0 <= i < |table|
    ensures r.Some? ==> r.value == table[i]
  {
    if 0 <= i < |table| then Some(table[i]) else None
  }
}
