# s3-cli listing core in Dafny

A model of the command line tool that lists object-storage buckets, or the
"folders" and "files" directly under a bucket and key prefix, as a table.
The tool runs one of two listings:

- With no PATH argument it asks the service for every bucket and prints one
  `Bucket` row per bucket under the header `Type | Name`.
- With a PATH of the form `bucket[/prefix]` (split at the first `/` only), it
  sends one "list objects" request. The request carries the bucket, the
  delimiter `/`, and the prefix only when the prefix is not empty. It then
  prints under `Type | Bucket | Key` one `Folder` row per common prefix, then
  one `File` row per object. An object whose key equals the requested prefix
  (the folder's own marker object) is skipped.

A run either prints one table or prints nothing and exits non-zero. That
happens when the service call fails (`Error.Service`) or when a response
field the tool unwraps is absent (`Error.Panic`). The model's result type is
`Result<Table, Error>`.

Files:

- `wrappers.dfy`: `Option` and `Result`.
- `s3_api.dfy`: the SDK's request and response shapes, and `S3Client`. The
  client holds the two service calls as functions, so the responses are
  inputs and the request actually sent appears in the contracts.
- `path_resolver.dfy`: splitting PATH into bucket and prefix.
- `table.dfy`: rows, kinds, the two headers, and the cells a row shows.
- `listing.dfy`: the row sequences as functions of the response, with their
  properties. It also holds the list request, the two listings as functions,
  and the two listing methods. Each method loops over the response and appends
  one row per item to a local row sequence, as the tool adds rows to its table.
- `cli.dfy`: `Run`, the entry point that dispatches on PATH.

The tool does not check that the bucket is non-empty: a PATH such as `/x`
gives the empty bucket `""`, which is passed on unchanged. An absent bucket
name, common prefix or object key makes the tool's `unwrap` panic
(src/main.rs:43, 73, 80). The model treats that as a failure that prints
nothing. It happens for every object with no key, because such an object
always passes the "key is not the prefix" test on line 79 before its key is
unwrapped.

## Model

| member | source | states |
|---|---|---|
| PathResolver.SplitN2 | src/main.rs:19 | splitting at the first '/' gives one part (the whole PATH) exactly when PATH has no '/'; otherwise two parts, the first slash-free, that rejoin with '/' into PATH |
| PathResolver.ResolvePath | src/main.rs:19-25 | the bucket never contains '/'; without '/' the bucket is the whole PATH and the prefix is empty; with '/' bucket + "/" + prefix reconstructs PATH |
| PathResolver.ResolveJoin | src/main.rs:19-22 | round trip: a slash-free bucket joined to any prefix by '/' resolves back to that bucket and prefix |
| PathResolver.ResolveUnique | src/main.rs:19-22 | the bucket is the text before the first '/' (its length is that '/' position) and the prefix is everything after it, later '/' included |
| PathResolver.ResolveNested | src/main.rs:19-25 | "a/b/c" resolves to bucket "a" and prefix "b/c" |
| ListingTable.Cells | src/main.rs:43 | a row shows its kind label first and its name last: 2 cells without a bucket, 3 with one |
| Listing.BucketRowsAt | src/main.rs:42-44 | one Bucket row per bucket, in response order, showing the bucket's name |
| Listing.FolderRowsAt | src/main.rs:71-75 | one Folder row per common prefix, in response order, carrying the requested bucket and the full prefix string |
| Listing.FileRowsShape | src/main.rs:78-81 | every file row is a File row of the requested bucket, and its key is never the requested prefix |
| Listing.FileRowsCount | src/main.rs:78-81 | the number of file rows is the number of objects minus those whose key equals the prefix |
| Listing.FileRowsKeys | src/main.rs:78-81 | every key other than the prefix is shown exactly as often as the response lists it; the prefix never is |
| Listing.FileRowsAt | src/main.rs:77-83 | the object at position i, if not the prefix, is shown in file row i minus the number of prefix-keyed objects before it |
| Listing.FileRowsKeepOrder | src/main.rs:77-83 | of two shown objects the earlier one's row comes first |
| Listing.ListRequest | src/main.rs:55-64 | the request passes the bucket unchanged, always sets the delimiter "/", has no prefix exactly when the prefix is empty, and otherwise carries it verbatim |
| Listing.BucketListing | src/main.rs:35-48 | a failed call fails with its service error; otherwise the bucket table is printed exactly when every bucket has a name, else a BucketName panic |
| Listing.ObjectListing | src/main.rs:50-87 | a failed call fails with its service error; otherwise the table is printed exactly when every common prefix and every object key is present; an absent prefix panics first, then an absent key |
| Listing.BucketListingRows | src/main.rs:38-44 | a printed bucket table has the Type/Name header and one Bucket row per returned bucket in response order; an absent list gives no rows; every row fills both columns |
| Listing.ObjectListingRows | src/main.rs:67-83 | a printed object table has the Type/Bucket/Key header; its first rows are the Folder rows in response order, and the remaining rows are exactly FileRows (so FileRowsAt and FileRowsKeepOrder give their order): File rows of the bucket, none showing the prefix; each other key appears as often as listed; the row count is prefixes plus non-prefix keys; an absent list contributes nothing |
| Listing.FoldersBeforeFiles | src/main.rs:71-83 | every Folder row precedes every File row, and every row carries the requested bucket and fills all three columns |
| Listing.TwoBuckets | src/main.rs:42-44 | buckets "alpha" then "beta" give exactly two Bucket rows in that order |
| Listing.FolderMarkerSuppressed | src/main.rs:71-83 | under prefix "logs/", the common prefix "logs/" and the keys "logs/" and "logs/a.txt" give one Folder row "logs/" and one File row "logs/a.txt" |
| Listing.GetBuckets | src/main.rs:35-48 | the loop over the response builds exactly the table BucketListing specifies, or fails as it does |
| Listing.GetFoldersAndFiles | src/main.rs:50-87 | sends ListRequest(bucket, prefix); the two loops build exactly the table ObjectListing specifies for that response, or fail as it does |
| Cli.Run | src/main.rs:13-33 | without PATH the outcome is the bucket listing; with PATH it is the object listing of ResolvePath(PATH), requested with ListRequest |

## Left out

- The network calls `list_buckets` and `list_objects_v2`, the client and region construction, and credential resolution. Their answers are the inputs held in `S3Client`.
- Only the first page of the response is listed, as in the tool. The request's other fields (continuation token, maximum keys and so on) keep their defaults and are not modelled.
- The async runtime and its await points: the tool makes one sequential call, so there is nothing concurrent to model.
- Argument parsing: the model starts from the optional PATH string.
- Table layout and printing to standard output: the table is its header plus its rows in order, and `Cells` says what each row shows. Column widths and the border format are not modelled.
- Error reporting: a service error is reduced to its message, and a panic to the field that was absent. The stderr text and the exact exit status (the `anyhow` error path and a panic exit with different codes) are not modelled; both print no table.
