/** The two listings: every bucket of the caller, or the folders and files
    directly under a bucket and key prefix. Each is specified by a function of
    the service's response, and each is implemented by a method that loops over
    the response and appends one row per item, as the tool fills its table. */
module Listing {
  import opened Wrappers
  import opened S3Api
  import opened ListingTable

  /** The optional response fields whose `unwrap` can panic. */
  datatype Field = BucketName | CommonPrefixPrefix | ObjectKey

  /** Why a run prints no table: the service call failed, or a field the
      tool unwraps was absent (a panic). */
  datatype Error = Service(message: ServiceError) | Panic(unwrapped: Field)

  function BucketRow(name: string): Row { Row(Kind.Bucket, None, name) }
  function FolderRow(bucket: string, prefix: string): Row { Row(Folder, Some(bucket), prefix) }
  function FileRow(bucket: string, key: string): Row { Row(File, Some(bucket), key) }

  predicate NamesPresent(bs: seq<Bucket>) { forall i | 0 <= i < |bs| :: bs[i].name.Some? }
  predicate PrefixesPresent(ps: seq<CommonPrefix>) { forall i | 0 <= i < |ps| :: ps[i].prefix.Some? }
  predicate KeysPresent(os: seq<Object>) { forall i | 0 <= i < |os| :: os[i].key.Some? }

  /** The keys of the listed objects, in response order. */
  function Keys(os: seq<Object>): (keys: seq<string>)
    requires KeysPresent(os)
    ensures |keys| == |os|
  {
    seq(|os|, i requires 0 <= i < |os| => os[i].key.value)
  }

  // ---------------------------------------------------------------------
  // Rows, item by item, in the order the loops add them

  function BucketRows(bs: seq<Bucket>): seq<Row>
    requires NamesPresent(bs)
  {
    if bs == [] then [] else BucketRows(bs[..|bs| - 1]) + [BucketRow(bs[|bs| - 1].name.value)]
  }

  function FolderRows(bucket: string, ps: seq<CommonPrefix>): seq<Row>
    requires PrefixesPresent(ps)
  {
    if ps == [] then [] else FolderRows(bucket, ps[..|ps| - 1]) + [FolderRow(bucket, ps[|ps| - 1].prefix.value)]
  }

  /** File rows: one per object, except an object whose key is the requested
      prefix itself (the folder's own marker object). */
  function FileRows(bucket: string, prefix: string, os: seq<Object>): seq<Row>
    requires KeysPresent(os)
  {
    if os == [] then []
    else
      var rest := FileRows(bucket, prefix, os[..|os| - 1]);
      var key := os[|os| - 1].key.value;
      if key == prefix then rest else rest + [FileRow(bucket, key)]
  }

  /** One Bucket row per bucket, in response order, showing its name. */
  lemma {:induction false} BucketRowsAt(bs: seq<Bucket>)
    requires NamesPresent(bs)
    ensures |BucketRows(bs)| == |bs|
    ensures forall k | 0 <= k < |bs| :: BucketRows(bs)[k] == BucketRow(bs[k].name.value)
  {
    if bs != [] {
      BucketRowsAt(bs[..|bs| - 1]);
    }
  }

  /** One Folder row per common prefix, in response order, carrying the bucket. */
  lemma {:induction false} FolderRowsAt(bucket: string, ps: seq<CommonPrefix>)
    requires PrefixesPresent(ps)
    ensures |FolderRows(bucket, ps)| == |ps|
    ensures forall k | 0 <= k < |ps| :: FolderRows(bucket, ps)[k] == FolderRow(bucket, ps[k].prefix.value)
  {
    if ps != [] {
      FolderRowsAt(bucket, ps[..|ps| - 1]);
    }
  }

  lemma KeysOfInit(os: seq<Object>)
    requires os != [] && KeysPresent(os)
    ensures KeysPresent(os[..|os| - 1])
    ensures Keys(os) == Keys(os[..|os| - 1]) + [os[|os| - 1].key.value]
  {
  }

  /** Every file row is a File row of the requested bucket whose key is not the prefix. */
  lemma {:induction false} FileRowsShape(bucket: string, prefix: string, os: seq<Object>)
    requires KeysPresent(os)
    ensures forall k | 0 <= k < |FileRows(bucket, prefix, os)| ::
      var row := FileRows(bucket, prefix, os)[k];
      row == FileRow(bucket, row.name) && row.name != prefix
  {
    if os != [] {
      FileRowsShape(bucket, prefix, os[..|os| - 1]);
    }
  }

  /** As many file rows as objects whose key is not the prefix. */
  lemma {:induction false} FileRowsCount(bucket: string, prefix: string, os: seq<Object>)
    requires KeysPresent(os)
    ensures |FileRows(bucket, prefix, os)| == |os| - multiset(Keys(os))[prefix]
  {
    if os != [] {
      KeysOfInit(os);
      FileRowsCount(bucket, prefix, os[..|os| - 1]);
    }
  }

  /** Every key other than the prefix is shown exactly as often as the
      response lists it, and the prefix itself never. */
  lemma {:induction false} FileRowsKeys(bucket: string, prefix: string, os: seq<Object>)
    requires KeysPresent(os)
    ensures multiset(Names(FileRows(bucket, prefix, os))) == multiset(Keys(os))[prefix := 0]
  {
    if os != [] {
      var init := os[..|os| - 1];
      var key := os[|os| - 1].key.value;
      KeysOfInit(os);
      FileRowsKeys(bucket, prefix, init);
      if key != prefix {
        assert Names(FileRows(bucket, prefix, os)) == Names(FileRows(bucket, prefix, init)) + [key];
      }
    }
  }

  /** The object at position `i`, unless its key is the prefix, is shown in
      file row `i - m`, where `m` counts the prefix-keyed objects before it:
      file rows keep response order. */
  lemma {:induction false} FileRowsAt(bucket: string, prefix: string, os: seq<Object>, i: nat)
    requires KeysPresent(os)
    requires i < |os| && os[i].key.value != prefix
    ensures KeysPresent(os[..i])
    ensures var k := i - multiset(Keys(os[..i]))[prefix];
      0 <= k < |FileRows(bucket, prefix, os)| && FileRows(bucket, prefix, os)[k] == FileRow(bucket, os[i].key.value)
  {
    var init := os[..|os| - 1];
    if i == |os| - 1 {
      assert init == os[..i];
      FileRowsCount(bucket, prefix, init);
    } else {
      assert init[..i] == os[..i];
      FileRowsAt(bucket, prefix, init, i);
    }
  }

  /** Between two objects at `i < j`, the prefix-keyed ones number at most
      `j - i - 1` when the object at `i` is not one of them. */
  lemma {:induction false} PrefixKeysBetween(prefix: string, os: seq<Object>, i: nat, j: nat)
    requires KeysPresent(os)
    requires i < j <= |os| && os[i].key.value != prefix
    ensures KeysPresent(os[..i]) && KeysPresent(os[..j])
    ensures multiset(Keys(os[..j]))[prefix] <= multiset(Keys(os[..i]))[prefix] + (j - i - 1)
  {
    if j == i + 1 {
      assert Keys(os[..j]) == Keys(os[..i]) + [os[i].key.value];
    } else {
      PrefixKeysBetween(prefix, os, i, j - 1);
      assert Keys(os[..j]) == Keys(os[..j - 1]) + [os[j - 1].key.value];
    }
  }

  /** File rows keep response order: of two objects shown, the earlier one's
      row comes first. */
  lemma FileRowsKeepOrder(bucket: string, prefix: string, os: seq<Object>, i: nat, j: nat)
    requires KeysPresent(os)
    requires i < j < |os| && os[i].key.value != prefix && os[j].key.value != prefix
    ensures KeysPresent(os[..i]) && KeysPresent(os[..j])
    ensures var rows := FileRows(bucket, prefix, os);
      var ki := i - multiset(Keys(os[..i]))[prefix];
      var kj := j - multiset(Keys(os[..j]))[prefix];
      0 <= ki < kj < |rows| && rows[ki] == FileRow(bucket, os[i].key.value) && rows[kj] == FileRow(bucket, os[j].key.value)
  {
    PrefixKeysBetween(prefix, os, i, j);
    FileRowsAt(bucket, prefix, os, i);
    FileRowsAt(bucket, prefix, os, j);
  }

  // ---------------------------------------------------------------------
  // The list request and the two listings as functions of the response

  /** The "list objects" request for a bucket and prefix: the bucket as given,
      the delimiter "/", and the prefix only when it is not empty. */
  function ListRequest(bucket: string, prefix: string): (req: ListObjectsV2Request)
    ensures req.bucket == bucket
    ensures req.delimiter == Some("/")
    ensures req.prefix.None? <==> prefix == ""
    ensures req.prefix.GetOr("") == prefix
  {
    ListObjectsV2Request(bucket, Some("/"), if prefix == "" then None else Some(prefix))
  }

  /** The bucket table, or why none is printed. */
  function BucketListing(response: Result<ListBucketsOutput, ServiceError>): (r: Result<Table, Error>)
    ensures response.Failure? ==> r == Failure(Service(response.error))
    ensures response.Success? ==>
      var bs := response.value.buckets.GetOr([]);
      (r.Success? <==> NamesPresent(bs)) && (r.Failure? ==> r.error == Panic(BucketName))
  {
    match response
    case Failure(e) => Failure(Service(e))
    case Success(out) =>
      var bs := out.buckets.GetOr([]);
      if !NamesPresent(bs) then Failure(Panic(BucketName))
      else Success(Table(BucketTitles, BucketRows(bs)))
  }

  /** The folder-and-file table for a bucket and prefix, or why none is printed. */
  function ObjectListing(bucket: string, prefix: string, response: Result<ListObjectsV2Output, ServiceError>): (r: Result<Table, Error>)
    ensures response.Failure? ==> r == Failure(Service(response.error))
    ensures response.Success? ==>
      var ps := response.value.commonPrefixes.GetOr([]);
      var os := response.value.contents.GetOr([]);
      && (r.Success? <==> PrefixesPresent(ps) && KeysPresent(os))
      && (r.Failure? && !PrefixesPresent(ps) ==> r.error == Panic(CommonPrefixPrefix))
      && (r.Failure? && PrefixesPresent(ps) ==> r.error == Panic(ObjectKey))
  {
    match response
    case Failure(e) => Failure(Service(e))
    case Success(out) =>
      var ps := out.commonPrefixes.GetOr([]);
      var os := out.contents.GetOr([]);
      if !PrefixesPresent(ps) then Failure(Panic(CommonPrefixPrefix))
      else if !KeysPresent(os) then Failure(Panic(ObjectKey))
      else Success(Table(ObjectTitles, FolderRows(bucket, ps) + FileRows(bucket, prefix, os)))
  }

  /** A printed bucket table has the Type/Name header and one Bucket row per
      returned bucket, in response order; an absent bucket list gives none. */
  lemma BucketListingRows(out: ListBucketsOutput)
    requires BucketListing(Success(out)).Success?
    ensures var t := BucketListing(Success(out)).value;
      var bs := out.buckets.GetOr([]);
      && t.titles == BucketTitles
      && |t.rows| == |bs|
      && forall k | 0 <= k < |bs| :: t.rows[k] == BucketRow(bs[k].name.value) && |Cells(t.rows[k])| == |t.titles|
  {
    BucketRowsAt(out.buckets.GetOr([]));
  }

  /** A printed folder-and-file table: the Type/Bucket/Key header; first one
      Folder row per common prefix in response order; then only File rows of
      the bucket, none showing the prefix, each other key as often as listed;
      an absent list contributes no rows. */
  lemma ObjectListingRows(bucket: string, prefix: string, out: ListObjectsV2Output)
    requires ObjectListing(bucket, prefix, Success(out)).Success?
    ensures KeysPresent(out.contents.GetOr([]))
    ensures var t := ObjectListing(bucket, prefix, Success(out)).value;
      var ps := out.commonPrefixes.GetOr([]);
      var keys := Keys(out.contents.GetOr([]));
      && t.titles == ObjectTitles
      && |t.rows| == |ps| + |keys| - multiset(keys)[prefix]
      && (forall k | 0 <= k < |ps| :: t.rows[k] == FolderRow(bucket, ps[k].prefix.value))
      && (forall k | |ps| <= k < |t.rows| :: t.rows[k] == FileRow(bucket, t.rows[k].name) && t.rows[k].name != prefix)
      && t.rows[|ps|..] == FileRows(bucket, prefix, out.contents.GetOr([]))
      && multiset(Names(t.rows[|ps|..])) == multiset(keys)[prefix := 0]
  {
    var ps := out.commonPrefixes.GetOr([]);
    var os := out.contents.GetOr([]);
    var t := ObjectListing(bucket, prefix, Success(out)).value;
    FolderRowsAt(bucket, ps);
    FileRowsShape(bucket, prefix, os);
    FileRowsCount(bucket, prefix, os);
    FileRowsKeys(bucket, prefix, os);
    assert t.rows[|ps|..] == FileRows(bucket, prefix, os);
  }

  /** In a printed folder-and-file table every Folder row precedes every
      File row, and every row names the requested bucket in its Bucket column. */
  lemma FoldersBeforeFiles(bucket: string, prefix: string, out: ListObjectsV2Output)
    requires ObjectListing(bucket, prefix, Success(out)).Success?
    ensures var rows := ObjectListing(bucket, prefix, Success(out)).value.rows;
      && (forall i, j | 0 <= i < |rows| && 0 <= j < |rows| && rows[i].kind == Folder && rows[j].kind == File :: i < j)
      && (forall i | 0 <= i < |rows| :: rows[i].bucket == Some(bucket) && |Cells(rows[i])| == |ObjectTitles|)
  {
    ObjectListingRows(bucket, prefix, out);
  }

  /** Example: buckets "alpha" then "beta" give two Bucket rows in that order. */
  lemma TwoBuckets()
    ensures BucketListing(Success(ListBucketsOutput(Some([S3Api.Bucket(Some("alpha")), S3Api.Bucket(Some("beta"))]))))
      == Success(Table(BucketTitles, [BucketRow("alpha"), BucketRow("beta")]))
  {
    var bs := [S3Api.Bucket(Some("alpha")), S3Api.Bucket(Some("beta"))];
    assert bs[..1] == [S3Api.Bucket(Some("alpha"))] && bs[..1][..0] == [];
    assert BucketRows(bs) == [BucketRow("alpha"), BucketRow("beta")];
  }

  /** Example: under prefix "logs/", the folder marker "logs/" is
      listed as a folder only, and "logs/a.txt" as the one file. */
  lemma FolderMarkerSuppressed()
    ensures ObjectListing("b", "logs/", Success(ListObjectsV2Output(
      Some([CommonPrefix(Some("logs/"))]),
      Some([Object(Some("logs/")), Object(Some("logs/a.txt"))]))))
      == Success(Table(ObjectTitles, [FolderRow("b", "logs/"), FileRow("b", "logs/a.txt")]))
  {
    var ps := [CommonPrefix(Some("logs/"))];
    var os := [Object(Some("logs/")), Object(Some("logs/a.txt"))];
    assert ps[..0] == [];
    assert FolderRows("b", ps) == [FolderRow("b", "logs/")];
    assert os[..1] == [Object(Some("logs/"))] && os[..1][..0] == [];
    assert FileRows("b", "logs/", os[..1]) == [];
    assert "logs/a.txt" != "logs/" by { assert |"logs/a.txt"| != |"logs/"|; }
    assert FileRows("b", "logs/", os) == [FileRow("b", "logs/a.txt")];
    assert PrefixesPresent(ps) && KeysPresent(os);
    var out := ListObjectsV2Output(Some(ps), Some(os));
    assert ObjectListing("b", "logs/", Success(out)) == Success(Table(ObjectTitles, FolderRows("b", ps) + FileRows("b", "logs/", os)));
    assert FolderRows("b", ps) + FileRows("b", "logs/", os) == [FolderRow("b", "logs/"), FileRow("b", "logs/a.txt")];
    assert out == ListObjectsV2Output(
      Some([CommonPrefix(Some("logs/"))]),
      Some([Object(Some("logs/")), Object(Some("logs/a.txt"))]));
  }

  // ---------------------------------------------------------------------
  // The listings as the tool runs them

  /** Lists every bucket: asks the service once, then adds one row per bucket. */
  method GetBuckets(client: S3Client) returns (r: Result<Table, Error>)
    ensures r == BucketListing(client.listBuckets())
  {
    var response := client.listBuckets();
    if response.Failure? {
      return Failure(Service(response.error));
    }
    var bs := response.value.buckets.GetOr([]);
    var rows: seq<Row> := [];
    for i := 0 to |bs|
      invariant NamesPresent(bs[..i])
      invariant rows == BucketRows(bs[..i])
    {
      if bs[i].name.None? {
        return Failure(Panic(BucketName));
      }
      rows := rows + [BucketRow(bs[i].name.value)];
      assert bs[..i + 1][..i] == bs[..i];
    }
    assert bs[..|bs|] == bs;
    return Success(Table(BucketTitles, rows));
  }

  /** Lists the folders and files under `prefix` in `bucket`: sends one
      delimited request, adds a Folder row per common prefix, then a File
      row per object whose key is not the prefix itself. */
  method GetFoldersAndFiles(client: S3Client, bucket: string, prefix: string) returns (r: Result<Table, Error>)
    ensures r == ObjectListing(bucket, prefix, client.listObjectsV2(ListRequest(bucket, prefix)))
  {
    var request := ListRequest(bucket, prefix);
    var response := client.listObjectsV2(request);
    if response.Failure? {
      return Failure(Service(response.error));
    }
    var out := response.value;
    var rows: seq<Row> := [];
    var ps := out.commonPrefixes.GetOr([]);
    if out.commonPrefixes.Some? {
      for i := 0 to |ps|
        invariant PrefixesPresent(ps[..i])
        invariant rows == FolderRows(bucket, ps[..i])
      {
        if ps[i].prefix.None? {
          return Failure(Panic(CommonPrefixPrefix));
        }
        rows := rows + [FolderRow(bucket, ps[i].prefix.value)];
        assert ps[..i + 1][..i] == ps[..i];
      }
    }
    assert ps[..|ps|] == ps;
    var folders := rows;
    var os := out.contents.GetOr([]);
    if out.contents.Some? {
      for i := 0 to |os|
        invariant KeysPresent(os[..i])
        invariant rows == folders + FileRows(bucket, prefix, os[..i])
      {
        if os[i].key != Some(prefix) {
          if os[i].key.None? {
            return Failure(Panic(ObjectKey));
          }
          rows := rows + [FileRow(bucket, os[i].key.value)];
        }
        assert os[..i + 1][..i] == os[..i];
      }
    }
    assert os[..|os|] == os;
    assert PrefixesPresent(ps) && KeysPresent(os);
    assert rows == FolderRows(bucket, ps) + FileRows(bucket, prefix, os);
    return Success(Table(ObjectTitles, rows));
  }
}
