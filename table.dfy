/** The listing table as a value: a header of column titles and the rows added
    to it in order. Layout and printing are not modelled; `Cells` says what a
    row shows in each column. */
module ListingTable {
  import opened Wrappers

  datatype Kind = Bucket | Folder | File

  /** One listing row: its kind, the bucket it belongs to (absent in the
      bucket listing, which has no Bucket column) and the name or key shown. */
  datatype Row = Row(kind: Kind, bucket: Option<string>, name: string)

  datatype Table = Table(titles: seq<string>, rows: seq<Row>)

  const BucketTitles: seq<string> := ["Type", "Name"]
  const ObjectTitles: seq<string> := ["Type", "Bucket", "Key"]

  function KindLabel(k: Kind): string {
    match k
    case Bucket => "Bucket"
    case Folder => "Folder"
    case File => "File"
  }

  /** The cells of a row as shown: the label, then the bucket when present, then the name. */
  function Cells(row: Row): (cells: seq<string>)
    ensures |cells| == if row.bucket.Some? then 3 else 2
    ensures cells[0] == KindLabel(row.kind) && cells[|cells| - 1] == row.name
  {
    match row.bucket
    case Some(b) => [KindLabel(row.kind), b, row.name]
    case None => [KindLabel(row.kind), row.name]
  }

  /** The names shown in the last column, in row order. */
  function Names(rows: seq<Row>): (names: seq<string>)
    ensures |names| == |rows|
  {
    seq(|rows|, i requires 0 <= i < |rows| => rows[i].name)
  }
}
