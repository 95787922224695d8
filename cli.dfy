/** The command: no PATH lists every bucket; a PATH lists the folders and
    files under the bucket and prefix it names. A run either prints one table
    or fails without printing (the process then exits non-zero). */
module Cli {
  import opened Wrappers
  import opened S3Api
  import opened ListingTable
  import opened PathResolver
  import opened Listing

  method Run(client: S3Client, path: Option<string>) returns (r: Result<Table, Error>)
    ensures path.None? ==> r == BucketListing(client.listBuckets())
    ensures path.Some? ==>
      var loc := ResolvePath(path.value);
      r == ObjectListing(loc.bucket, loc.prefix, client.listObjectsV2(ListRequest(loc.bucket, loc.prefix)))
  {
    match path
    case Some(p) =>
      var loc := ResolvePath(p);
      r := GetFoldersAndFiles(client, loc.bucket, loc.prefix);
    case None =>
      r := GetBuckets(client);
  }
}
