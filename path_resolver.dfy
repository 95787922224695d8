/** The command line's optional PATH argument, read as `bucket[/prefix]`:
    only the first '/' separates the bucket from the key prefix. */
module PathResolver {

  const Delimiter: char := '/'

  /** Where to list: a bucket and a key prefix (empty when none was given). */
  datatype Location = Location(bucket: string, prefix: string)

  /** Position of the first `c` in `s`, or `|s|` when `s` has none. */
  function IndexOf(s: string, c: char): (i: nat)
    ensures i <= |s|
    ensures i < |s| ==> s[i] == c
    ensures c !in s[..i]
  {
    if s == [] then 0
    else if s[0] == c then 0
    else 1 + IndexOf(s[1..], c)
  }

  /** Splitting into at most two parts at the first `sep`: one part (the
      whole string) when `sep` does not occur, else the text before and the
      text after that first `sep`. */
  function SplitN2(s: string, sep: char): (parts: seq<string>)
    ensures 1 <= |parts| <= 2
    ensures sep !in parts[0]
    ensures |parts| == 1 <==> sep !in s
    ensures |parts| == 1 ==> parts[0] == s
    ensures |parts| == 2 ==> parts[0] + [sep] + parts[1] == s
  {
    var i := IndexOf(s, sep);
    if i == |s| then
      assert s[..i] == s;
      [s]
    else
      assert s[..i] + [sep] + s[i + 1..] == s;
      [s[..i], s[i + 1..]]
  }

  /** The bucket and prefix a PATH argument names. */
  function ResolvePath(path: string): (loc: Location)
    ensures Delimiter !in loc.bucket
    ensures Delimiter !in path ==> loc == Location(path, "")
    ensures Delimiter in path ==> loc.bucket + [Delimiter] + loc.prefix == path
  {
    var parts := SplitN2(path, Delimiter);
    Location(parts[0], if |parts| > 1 then parts[1] else "")
  }

  /** The first occurrence of `c` in `b + [c] + p` is the one after `b`
      when `b` has none. */
  lemma {:induction false} IndexOfAfter(b: string, c: char, p: string)
    requires c !in b
    ensures IndexOf(b + [c] + p, c) == |b|
  {
    if b != [] {
      assert (b + [c] + p)[1..] == b[1..] + [c] + p;
      IndexOfAfter(b[1..], c, p);
    }
  }

  /** Joining a slash-free bucket and any prefix with '/' gives a PATH that
      resolves back to exactly that bucket and prefix. */
  lemma ResolveJoin(bucket: string, prefix: string)
    requires Delimiter !in bucket
    ensures ResolvePath(bucket + [Delimiter] + prefix) == Location(bucket, prefix)
  {
    var path := bucket + [Delimiter] + prefix;
    IndexOfAfter(bucket, Delimiter, prefix);
    assert path[..|bucket|] == bucket;
    assert path[|bucket| + 1..] == prefix;
  }

  /** A PATH with a '/' has exactly one reading as a slash-free bucket, '/',
      and a prefix: the bucket is the text before the FIRST '/', and the
      prefix is the rest, later '/' characters included. */
  lemma ResolveUnique(path: string, bucket: string, prefix: string)
    requires Delimiter !in bucket
    requires bucket + [Delimiter] + prefix == path
    ensures ResolvePath(path) == Location(bucket, prefix)
    ensures |bucket| == IndexOf(path, Delimiter)
  {
    ResolveJoin(bucket, prefix);
    IndexOfAfter(bucket, Delimiter, prefix);
  }

  /** Example: "a/b/c" names bucket "a" and prefix "b/c". */
  lemma ResolveNested()
    ensures ResolvePath("a/b/c") == Location("a", "b/c")
  {
  }
}
