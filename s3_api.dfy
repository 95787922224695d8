/** The shapes of the object-storage SDK that the command line tool consumes.
    Only the fields the tool reads or sets are modelled; the two network calls
    are given as functions inside `S3Client`, so a run's responses are inputs. */
module S3Api {
  import opened Wrappers

  /** A bucket descriptor of the "list buckets" response; its name is optional. */
  datatype Bucket = Bucket(name: Option<string>)

  datatype ListBucketsOutput = ListBucketsOutput(buckets: Option<seq<Bucket>>)

  /** A "folder": a key prefix the service grouped up to the next delimiter. */
  datatype CommonPrefix = CommonPrefix(prefix: Option<string>)

  /** A stored object; only its key is read. */
  datatype Object = Object(key: Option<string>)

  datatype ListObjectsV2Output = ListObjectsV2Output(
    commonPrefixes: Option<seq<CommonPrefix>>,
    contents: Option<seq<Object>>)

  /** The request fields the tool sets; every other field keeps its default (absent). */
  datatype ListObjectsV2Request = ListObjectsV2Request(
    bucket: string,
    delimiter: Option<string>,
    prefix: Option<string>)

  /** A transport, authentication or service error, reduced to its message. */
  type ServiceError = string

  /** The client: what each call answers, including a failure of the call itself. */
  datatype S3Client = S3Client(
    listBuckets: () -> Result<ListBucketsOutput, ServiceError>,
    listObjectsV2: ListObjectsV2Request -> Result<ListObjectsV2Output, ServiceError>)
}
