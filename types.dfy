/** Data shared by the two conversion routes and the client page: uploaded
    files, the opaque image codec, HTTP responses as values, and the
    file-name rule `name.split('.')[0]` that all three apply. */
module Types {

  newtype byte = x: int | 0 <= x < 256

  datatype Option<+T> = None | Some(value: T)

  datatype Result<+R, +E> = Success(value: R) | Failure(error: E)

  /** The largest number of files one selection or one batch may hold. */
  const MaxFiles: nat := 10

  /** A browser `File`: its name, its declared size in bytes and its content. */
  datatype File = File(name: string, size: nat, bytes: seq<byte>)

  /** What the codec throws when it cannot convert: an `Error` object with a
      message, or some other thrown value. */
  datatype Thrown = ErrorObject(message: string) | NonError

  /** The WebP encoder (quality 80, effort 1), treated as an opaque transform
      that either produces WebP bytes or throws. */
  type Codec = seq<byte> -> Result<seq<byte>, Thrown>

  /** A response body: raw WebP bytes, or a ZIP archive given by its entries. */
  datatype Body = WebP(data: seq<byte>) | Zip(entries: map<string, seq<byte>>)

  /** A route's response: a 200 binary download, or a JSON error body
      `{error, details?}` with its status. */
  datatype Response =
    | Binary(contentType: string, disposition: string, body: Body)
    | Json(status: nat, error: string, details: Option<string>)

  /** The HTTP status a response carries. */
  function Status(r: Response): nat {
    if r.Binary? then 200 else r.status
  }

  /** `response.ok` as the client sees it. */
  predicate IsOk(r: Response) {
    200 <= Status(r) < 300
  }

  /** The `details` text of a conversion failure. */
  function Details(t: Thrown): string {
    match t
    case ErrorObject(message) => message
    case NonError => "Unknown error"
  }

  /** The `Content-Disposition` header for a download named `fileName`. */
  function Attachment(fileName: string): string {
    "attachment; filename=\"" + fileName + "\""
  }

  /** The header names its file unambiguously. */
  lemma AttachmentInjective(a: string, b: string)
    requires Attachment(a) == Attachment(b)
    ensures a == b
  {
    var pre := "attachment; filename=\"";
    var x, y := Attachment(a), Attachment(b);
    assert |a| == |b|;
    forall i | 0 <= i < |a| ensures a[i] == b[i] {
      assert x[|pre| + i] == a[i];
      assert y[|pre| + i] == b[i];
    }
  }

  /** JavaScript's `s.split(sep)` for a one-character separator: the pieces
      between separators, in order, always at least one. */
  function Split(s: string, sep: char): (parts: seq<string>)
    ensures |parts| >= 1
    ensures forall i :: 0 <= i < |parts| ==> sep !in parts[i]
    ensures parts[0] <= s
    ensures |parts[0]| < |s| ==> s[|parts[0]|] == sep
    decreases |s|
  {
    if s == [] then [[]]
    else if s[0] == sep then [[]] + Split(s[1..], sep)
    else
      var rest := Split(s[1..], sep);
      assert forall i :: 1 <= i < |rest| ==> sep !in rest[i];
      [[s[0]] + rest[0]] + rest[1..]
  }

  /** JavaScript's `parts.join(sep)`, the inverse of `Split`. */
  function Join(parts: seq<string>, sep: char): string
    requires |parts| >= 1
  {
    if |parts| == 1 then parts[0] else parts[0] + [sep] + Join(parts[1..], sep)
  }

  /** Splitting loses nothing: joining the pieces gives the string back. */
  lemma {:induction false} JoinSplit(s: string, sep: char)
    ensures Join(Split(s, sep), sep) == s
    decreases |s|
  {
    if s == [] {
    } else if s[0] == sep {
      JoinSplit(s[1..], sep);
      var parts := Split(s, sep);
      assert parts[1..] == Split(s[1..], sep);
      assert s == [] + [sep] + s[1..];
    } else {
      JoinSplit(s[1..], sep);
      var rest := Split(s[1..], sep);
      var parts := Split(s, sep);
      assert parts[0] == [s[0]] + rest[0];
      assert parts[1..] == rest[1..];
      if |rest| == 1 {
        assert Join(rest, sep) == rest[0];
      } else {
        assert Join(rest, sep) == rest[0] + [sep] + Join(rest[1..], sep);
        assert s == [s[0]] + s[1..];
      }
    }
  }

  /** Splitting a separator-free piece followed by a separator peels that piece off. */
  lemma {:induction false} SplitAfterPiece(p: string, sep: char, rest: string)
    requires sep !in p
    ensures Split(p + [sep] + rest, sep) == [p] + Split(rest, sep)
    decreases |p|
  {
    var s := p + [sep] + rest;
    if p == [] {
      assert s == [sep] + rest;
      assert s[1..] == rest;
    } else {
      assert s[0] == p[0];
      assert s[1..] == p[1..] + [sep] + rest;
      SplitAfterPiece(p[1..], sep, rest);
      assert [p[0]] + p[1..] == p;
    }
  }

  /** Joining separator-free pieces and splitting again gives the pieces back. */
  lemma {:induction false} SplitJoin(parts: seq<string>, sep: char)
    requires |parts| >= 1
    requires forall i :: 0 <= i < |parts| ==> sep !in parts[i]
    ensures Split(Join(parts, sep), sep) == parts
    decreases |parts|
  {
    if |parts| == 1 {
      SplitWithoutSeparator(parts[0], sep);
    } else {
      SplitJoin(parts[1..], sep);
      SplitAfterPiece(parts[0], sep, Join(parts[1..], sep));
      assert [parts[0]] + parts[1..] == parts;
    }
  }

  /** A string with no separator splits into itself alone. */
  lemma {:induction false} SplitWithoutSeparator(s: string, sep: char)
    requires sep !in s
    ensures Split(s, sep) == [s]
    decreases |s|
  {
    if s != [] {
      assert sep !in s[1..] by {
        forall i | 0 <= i < |s[1..]| ensures s[1..][i] != sep {
          assert s[1..][i] == s[i + 1];
        }
      }
      SplitWithoutSeparator(s[1..], sep);
      assert [s[0]] + s[1..] == s;
    }
  }

  /** `name.split('.')[0]`: the text of `name` before its first '.', or all
      of it when it has none. */
  function BaseName(name: string): (base: string)
    ensures base <= name
    ensures '.' !in base
    ensures |base| < |name| ==> name[|base|] == '.'
  {
    Split(name, '.')[0]
  }

  /** The three facts above determine the base name: it is the only prefix
      free of '.' that ends the name or stops at a '.'. */
  lemma BaseNameUnique(name: string, p: string)
    requires p <= name && '.' !in p
    requires |p| < |name| ==> name[|p|] == '.'
    ensures p == BaseName(name)
  {
  }

  /** A name without '.' is its own base name. */
  lemma BaseNameWithoutDot(name: string)
    requires '.' !in name
    ensures BaseName(name) == name
  {
  }

  /** Only the text up to the first '.' counts: `"a.tar.gz"` gives `"a"`,
      and a name that starts with '.' has an empty base name. */
  lemma BaseNameExamples()
    ensures BaseName("a.tar.gz") == "a"
    ensures BaseName(".hidden") == ""
    ensures forall rest :: BaseName(['.'] + rest) == ""
  {
  }

  /** The name of a converted file: `${name.split('.')[0]}.webp`. */
  function OutputName(name: string): string {
    BaseName(name) + ".webp"
  }
}
