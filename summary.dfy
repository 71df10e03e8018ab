/**
  The in-memory table loaded once at startup (`SUMMARY`): one row per date,
  period and Manhattan zone. The loader's SQL runs inside the database and is
  not modelled; the table is an immutable sequence of rows in load order.
*/
module Summary {

  /**
    One row of the table. `Id` is whatever the driver delivers for the
    `LocationID` column; the query converts it to an integer, and that
    conversion may fail.
  */
  datatype Row<Id> = Row(
    date: string,
    period: string,
    locationId: Id,
    zone: string,
    ridership: real,
    category: string)

  type Table<Id> = seq<Row<Id>>
}
