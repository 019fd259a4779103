/**
 * The multipart/form-data upload parser (Server/LuciferCore/Helper/MultipartHelper.cs).
 * The delimiter is "--" followed by the boundary parameter of the Content-Type header
 * (section 5.1.1 of RFC 2046); each part carries its own header block ended by an
 * empty line, and a part whose Content-Disposition names a filename is a file
 * (RFC 7578). The request body is the byte sequence `body`.
 */
module Multipart {
  import opened Wrappers
  import opened Text
  import opened Utf8
  import opened Http

  /** An uploaded file; every field but the content may be null. */
  datatype UploadedFile = UploadedFile(name: Option<string>, fileName: Option<string>,
                                       contentType: Option<string>, content: seq<byte>)

  /** The fields a part's header block sets. */
  datatype PartHeaders = PartHeaders(name: Option<string>, fileName: Option<string>, contentType: Option<string>)

  const HeaderEnd: seq<byte> := [13, 10, 13, 10]

  /** Names compared ignoring case, written in lower case. */
  const ContentDisposition: string := "content-disposition"
  const ContentTypeName: string := "content-type"
  /** The request header ParseFiles reads, looked up ignoring case. */
  const ContentTypeHeader: string := "Content-Type"
  const FormData: string := "multipart/form-data"

  // ---------------------------------------------------------------- searching bytes

  /** The first position at or after `start` where `needle` occurs; -1 when there is none or `start` is outside `haystack`. */
  function IndexFrom(haystack: seq<byte>, needle: seq<byte>, start: int): (r: int)
    ensures r == -1 || (start <= r && OccursAt(haystack, needle, r))
    ensures r != -1 ==> forall k :: start <= k < r ==> !OccursAt(haystack, needle, k)
    ensures r == -1 && 0 <= start < |haystack| ==> forall k :: start <= k ==> !OccursAt(haystack, needle, k)
  {
    if start < 0 || start >= |haystack| then -1
    else match Find(haystack, needle, start)
      case Some(i) => i
      case None => -1
  }

  /** IndexOf: the outer loop tries each start position, the inner loop compares byte by byte. */
  method IndexOf(haystack: seq<byte>, needle: seq<byte>, start: int) returns (r: int)
    ensures r == IndexFrom(haystack, needle, start)
  {
    if start < 0 || start >= |haystack| {
      return -1;
    }
    var i := start;
    while i <= |haystack| - |needle|
      invariant start <= i
      invariant forall k :: start <= k < i ==> !OccursAt(haystack, needle, k)
    {
      var found := true;
      var j := 0;
      while j < |needle|
        invariant 0 <= j <= |needle|
        invariant found && haystack[i..i + j] == needle[..j]
      {
        if haystack[i + j] != needle[j] {
          assert !OccursAt(haystack, needle, i) by {
            assert haystack[i..i + |needle|][j] == haystack[i + j];
          }
          found := false;
          break;
        }
        assert haystack[i..i + j + 1] == haystack[i..i + j] + [haystack[i + j]];
        assert needle[..j + 1] == needle[..j] + [needle[j]];
        j := j + 1;
      }
      if found {
        assert OccursAt(haystack, needle, i);
        return i;
      }
      i := i + 1;
    }
    return -1;
  }

  // ---------------------------------------------------------------- header lines

  /** The header block split at each CRLF. */
  function SplitCrLf(s: string): (parts: seq<string>)
    decreases |s|
  {
    match Find(s, "\r\n", 0)
    case None => [s]
    case Some(i) => [s[..i]] + SplitCrLf(s[i + 2..])
  }

  /**
   * The first match of the regular expression `key([^"]*)"`, where `key` ends with
   * the opening quote: the text after the leftmost occurrence of `key` that has a
   * closing quote, up to that quote.
   */
  function Quoted(line: string, key: string, from: nat): (r: Option<string>)
    decreases |line| - from
    ensures r.Some? ==> '"' !in r.value
  {
    match Find(line, key, from)
    case None => None
    case Some(i) =>
      match IndexOfChar(line[i + |key|..], '"')
      case Some(j) => Some(line[i + |key|..][..j])
      case None => Quoted(line, key, i + 1)
  }

  /**
   * One header line: Content-Disposition sets the name and the filename it matches;
   * Content-Type takes the trimmed text between its first and second ':', and a
   * Content-Type line without ':' makes the index out of range.
   */
  function ReadLine(h: PartHeaders, line: string): (r: Result<PartHeaders>)
    ensures r.Failure? <==> !StartsWithLower(line, ContentDisposition) && StartsWithLower(line, ContentTypeName) && ':' !in line
    ensures r.Success? && !StartsWithLower(line, ContentDisposition) ==> r.value.fileName == h.fileName
    ensures r.Failure? ==> r.error == "IndexOutOfRangeException"
  {
    if StartsWithLower(line, ContentDisposition) then
      var name := Quoted(line, "name=\"", 0);
      var fileName := Quoted(line, "filename=\"", 0);
      Success(PartHeaders(if name.Some? then name else h.name,
                          if fileName.Some? then fileName else h.fileName,
                          h.contentType))
    else if StartsWithLower(line, ContentTypeName) then
      var parts := Split(line, ':');
      if |parts| < 2 then
        assert ':' !in line by { SplitNoColon(line); }
        Failure("IndexOutOfRangeException")
      else
        assert ':' in line by { if ':' !in line { SplitNoSeparator(line, ':'); } }
        Success(h.(contentType := Some(Trim(parts[1]))))
    else Success(h)
  }

  lemma SplitNoColon(line: string)
    requires |Split(line, ':')| < 2
    ensures ':' !in line
  {
    if ':' in line {
      assert false;
    }
  }

  /** Reading `lines` in order from `h`, stopping at the first failure. */
  function ReadLines(h: PartHeaders, lines: seq<string>): (r: Result<PartHeaders>)
    decreases |lines|
    ensures r.Failure? ==> r.error == "IndexOutOfRangeException"
  {
    if lines == [] then Success(h)
    else match ReadLine(h, lines[0])
      case Failure(e) => Failure(e)
      case Success(next) => ReadLines(next, lines[1..])
  }

  const NoHeaders := PartHeaders(None, None, None)

  /** The header loop of ParseFiles: each line read in turn, from no fields set. */
  method ReadPartHeaders(lines: seq<string>) returns (r: Result<PartHeaders>)
    ensures r == ReadLines(NoHeaders, lines)
  {
    var h := NoHeaders;
    for i := 0 to |lines|
      invariant ReadLines(h, lines[i..]) == ReadLines(NoHeaders, lines)
    {
      assert lines[i..][1..] == lines[i + 1..];
      var step := ReadLine(h, lines[i]);
      if step.Failure? {
        return step;
      }
      h := step.value;
    }
    return Success(h);
  }

  /** A Content-Disposition line whose filename comes first also gives its value as the name. */
  lemma FileNameAlsoMatchesName(line: string, i: nat)
    requires OccursAt(line, "filename=\"", i)
    ensures OccursAt(line, "name=\"", i + 4)
  {
    assert line[i + 4..i + 10] == line[i..i + 10][4..];
  }

  // ---------------------------------------------------------------- the parser

  /** The boundary parameter: the text after the first "boundary=" (ignoring case), trimmed of white space and then of quotes. */
  function Boundary(contentType: string): (b: Option<string>)
  {
    match Find(Lower(contentType), "boundary=", 0)
    case None => None
    case Some(i) =>
      assert i + |"boundary="| <= |Lower(contentType)|;
      Some(TrimChar(Trim(contentType[i + 9..]), '"'))
  }

  /**
   * The delimiter of a Content-Type value: present only when the value starts with
   * "multipart/form-data" (ignoring case) and has a boundary parameter; it is "--"
   * followed by the boundary.
   */
  function Delimiter(contentType: Option<string>): (d: Option<seq<byte>>)
    ensures d.Some? ==> contentType.Some? && StartsWithLower(contentType.value, FormData)
    ensures d.Some? ==> |d.value| >= 2 && d.value[0] == 45 && d.value[1] == 45
  {
    if contentType.None? || contentType.value == [] || !StartsWithLower(contentType.value, FormData) then None
    else match Boundary(contentType.value)
      case None => None
      case Some(clean) =>
        DashesFirst(clean);
        Some(Encode("--" + clean))
  }

  lemma DashesFirst(s: string)
    ensures |Encode("--" + s)| >= 2 && Encode("--" + s)[0] == 45 && Encode("--" + s)[1] == 45
  {
    EncodeAppend("--", s);
    EncodeAppend("-", "-");
  }

  /** No delimiter starts in [from, to). */
  predicate NoDelimiter(body: seq<byte>, d: seq<byte>, from: int, to: int)
  {
    forall k :: from <= k < to ==> !OccursAt(body, d, k)
  }

  /**
   * `c` sits in `body` at `s` and runs up to the next delimiter, which follows either
   * directly or after one CRLF that is not part of the content.
   */
  predicate PartData(body: seq<byte>, d: seq<byte>, s: nat, c: seq<byte>)
  {
    var e := s + |c|;
    && e <= |body| && body[s..e] == c
    && ((OccursAt(body, d, e) && NoDelimiter(body, d, s, e) && !(|c| >= 2 && body[e - 2] == 13 && body[e - 1] == 10))
        || (OccursAt(body, d, e + 2) && body[e] == 13 && body[e + 1] == 10 && NoDelimiter(body, d, s, e + 2)))
  }

  /** The content of a part whose data starts at `s` and whose next delimiter is at `next`: less one CRLF right before it. */
  lemma CleanContent(body: seq<byte>, d: seq<byte>, s: nat, next: nat)
    requires s <= next && OccursAt(body, d, next) && NoDelimiter(body, d, s, next)
    ensures PartData(body, d, s, body[s..s + ContentLength(body, s, next)])
  {
  }

  /** The position of the delimiter that ends the data `c` of `PartData`. */
  function DataEnd(body: seq<byte>, d: seq<byte>, s: nat, c: seq<byte>): (n: nat)
    requires PartData(body, d, s, c)
    ensures s <= n && OccursAt(body, d, n) && NoDelimiter(body, d, s, n)
  {
    var e := s + |c|;
    if OccursAt(body, d, e) then e else e + 2
  }

  /** The data of a part is fixed by where it starts: the next delimiter and the CRLF rule leave one choice. */
  lemma PartDataUnique(body: seq<byte>, d: seq<byte>, s: nat, c1: seq<byte>, c2: seq<byte>)
    requires PartData(body, d, s, c1) && PartData(body, d, s, c2)
    ensures c1 == c2
  {
    var n1, n2 := DataEnd(body, d, s, c1), DataEnd(body, d, s, c2);
    assert n1 == n2;
  }

  /** The result of one pass of the part loop: the file it yields, if any, and the new cursor, -1 when the loop stops. */
  datatype Part = Part(file: Option<UploadedFile>, next: int)

  /** The headers read from the block between `pos` and the header end `he`, empty lines dropped. */
  function HeadersAt(body: seq<byte>, pos: nat, he: nat): Result<PartHeaders>
    requires pos <= he <= |body|
  {
    ReadLines(NoHeaders, NonEmpty(SplitCrLf(Decode(body[pos..he]))))
  }

  /** The length of the content from `s` up to the next delimiter at `next`, less one CRLF just before it. */
  function ContentLength(body: seq<byte>, s: nat, next: nat): nat
    requires s <= next <= |body|
  {
    if next - s >= 2 && body[next - 2] == 13 && body[next - 1] == 10 then next - s - 2 else next - s
  }

  /**
   * `f` is the file described by the headers `hr` of a block ending at `he`: its name,
   * filename and content type are the headers', the filename is not empty, and the
   * content starts right after the CRLFCRLF and runs up to the next delimiter, less
   * one CRLF just before it.
   */
  predicate FileFits(body: seq<byte>, d: seq<byte>, he: nat, hr: Result<PartHeaders>, f: UploadedFile)
  {
    && hr == Success(PartHeaders(f.name, f.fileName, f.contentType))
    && f.fileName.Some? && f.fileName.value != []
    && PartData(body, d, he + 4, f.content)
  }

  /** `f` is the file of the part whose header block starts at `pos` and ends at the first CRLFCRLF from there. */
  predicate IsPartFile(body: seq<byte>, d: seq<byte>, pos: nat, f: UploadedFile)
  {
    var he := IndexFrom(body, HeaderEnd, pos);
    he != -1 && FileFits(body, d, he, HeadersAt(body, pos, he), f)
  }

  /**
   * The rest of a pass once the header block ending at `he` has been read as `hr`:
   * find the next delimiter and, for a part with a non-empty filename, cut out the file.
   */
  function PartWith(body: seq<byte>, d: seq<byte>, he: nat, hr: Result<PartHeaders>): (r: Result<Part>)
    ensures r.Failure? ==> hr.Failure? && r.error == hr.error
    ensures r.Success? ==> r.value.next == -1 || (he + 4 <= r.value.next && OccursAt(body, d, r.value.next))
    ensures r.Success? && r.value.file.Some? ==> r.value.next != -1
  {
    match hr
    case Failure(e) => Failure(e)
    case Success(h) =>
      var next := IndexFrom(body, d, he + 4);
      if next == -1 then Success(Part(None, -1))
      else if h.fileName.None? || h.fileName.value == [] then Success(Part(None, next))
      else Success(Part(Some(UploadedFile(h.name, h.fileName, h.contentType, body[he + 4..he + 4 + ContentLength(body, he + 4, next)])), next))
  }

  /** A file the rest of a pass yields fits the headers it was given. */
  lemma PartWithFile(body: seq<byte>, d: seq<byte>, he: nat, hr: Result<PartHeaders>)
    requires PartWith(body, d, he, hr).Success? && PartWith(body, d, he, hr).value.file.Some?
    ensures FileFits(body, d, he, hr, PartWith(body, d, he, hr).value.file.value)
  {
    assert hr.Success?;
    CleanContent(body, d, he + 4, IndexFrom(body, d, he + 4));
  }

  /** Conversely, a file that fits the headers is the one the rest of the pass yields. */
  lemma FitsPartWith(body: seq<byte>, d: seq<byte>, he: nat, hr: Result<PartHeaders>, f: UploadedFile)
    requires d != [] && FileFits(body, d, he, hr, f)
    ensures PartWith(body, d, he, hr) == Success(Part(Some(f), DataEnd(body, d, he + 4, f.content)))
  {
    var s := he + 4;
    var n := DataEnd(body, d, s, f.content);
    assert s < |body|;
    assert IndexFrom(body, d, s) == n;
    var r := PartWith(body, d, he, hr);
    PartWithFile(body, d, he, hr);
    PartDataUnique(body, d, s, f.content, r.value.file.value.content);
  }

  /**
   * One pass of the part loop of ParseFiles at the cursor `pos`, after the optional
   * CRLF and the end-marker test: find the end of the header block, read the headers,
   * then go on as PartWith. The new cursor is the next delimiter, or -1 when the loop
   * stops for want of a header end or a next delimiter.
   */
  function PartAt(body: seq<byte>, d: seq<byte>, pos: nat): (r: Result<Part>)
    ensures r.Failure? ==> r.error == "IndexOutOfRangeException"
    ensures r.Success? ==> r.value.next == -1 || (pos < r.value.next && OccursAt(body, d, r.value.next))
    ensures r.Success? && r.value.file.Some? ==> r.value.next != -1
  {
    var he := IndexFrom(body, HeaderEnd, pos);
    if he == -1 then Success(Part(None, -1)) else PartWith(body, d, he, HeadersAt(body, pos, he))
  }

  /** The file a pass yields is the file of the part at `pos`. */
  lemma PartAtFile(body: seq<byte>, d: seq<byte>, pos: nat)
    requires PartAt(body, d, pos).Success? && PartAt(body, d, pos).value.file.Some?
    ensures IsPartFile(body, d, pos, PartAt(body, d, pos).value.file.value)
  {
    PartWithFile(body, d, IndexFrom(body, HeaderEnd, pos), HeadersAt(body, pos, IndexFrom(body, HeaderEnd, pos)));
  }

  /** Conversely, any file that fits the description of the part at `pos` is the one the pass yields. */
  lemma PartFileFound(body: seq<byte>, d: seq<byte>, pos: nat, f: UploadedFile)
    requires d != [] && IsPartFile(body, d, pos, f)
    ensures PartAt(body, d, pos).Success? && PartAt(body, d, pos).value.file == Some(f)
  {
    FitsPartWith(body, d, IndexFrom(body, HeaderEnd, pos), HeadersAt(body, pos, IndexFrom(body, HeaderEnd, pos)), f);
  }

  /** The rest of a pass, written with the searching loop of IndexOf. */
  method FinishPart(body: seq<byte>, d: seq<byte>, he: nat, hr: Result<PartHeaders>) returns (r: Result<Part>)
    ensures r == PartWith(body, d, he, hr)
  {
    if hr.Failure? {
      return Failure(hr.error);
    }
    var h := hr.value;
    var dataStart := he + 4;
    var next := IndexOf(body, d, dataStart);
    if next < 0 {
      return Success(Part(None, -1));
    }
    if h.fileName.None? || h.fileName.value == [] {
      return Success(Part(None, next));
    }
    var len := next - dataStart;
    if len >= 2 && body[next - 2] == 13 && body[next - 1] == 10 {
      len := len - 2;
    }
    r := Success(Part(Some(UploadedFile(h.name, h.fileName, h.contentType, body[dataStart..dataStart + len])), next));
  }

  /** ReadPart: one pass of the part loop, written with the searching loops of IndexOf. */
  method ReadPart(body: seq<byte>, d: seq<byte>, pos: nat) returns (r: Result<Part>)
    ensures r == PartAt(body, d, pos)
  {
    var headerEnd := IndexOf(body, HeaderEnd, pos);
    if headerEnd < 0 {
      return Success(Part(None, -1));
    }
    var headerStr := Decode(body[pos..headerEnd]);
    var headers := ReadPartHeaders(NonEmpty(SplitCrLf(headerStr)));
    r := FinishPart(body, d, headerEnd, headers);
  }

  /** The cursor after the optional CRLF that follows a delimiter. */
  function SkipCrLf(body: seq<byte>, pos: nat): (p: nat)
    ensures p == pos || (p == pos + 2 && p <= |body| && body[pos] == 13 && body[pos + 1] == 10)
  {
    if pos + 2 <= |body| && body[pos] == 13 && body[pos + 1] == 10 then pos + 2 else pos
  }

  /** The end-marker test: two dashes at the cursor. */
  predicate AtDashes(body: seq<byte>, pos: nat)
  {
    pos + 2 <= |body| && body[pos] == 45 && body[pos + 1] == 45
  }

  /**
   * The part loop of ParseFiles from the cursor `pos`: nothing when the cursor is past
   * the body or, after the optional CRLF, on two dashes; otherwise the file of the
   * part there, if it is one.
   */
  function PartsFrom(body: seq<byte>, d: seq<byte>, pos: nat): (r: Result<seq<UploadedFile>>)
    ensures r.Failure? ==> r.error == "IndexOutOfRangeException"
    ensures r.Success? ==> |r.value| <= 1
  {
    if pos >= |body| then Success([])
    else
      var p := SkipCrLf(body, pos);
      if AtDashes(body, p) then Success([])
      else FilesOf(PartAt(body, d, p))
  }

  /** The files a pass yields: its file, if any, or its error. */
  function FilesOf(r: Result<Part>): Result<seq<UploadedFile>>
  {
    match r
    case Failure(e) => Failure(e)
    case Success(part) => if part.file.Some? then Success([part.file.value]) else Success([])
  }

  /** Past the end-marker test, the part loop yields what the pass at the cursor yields. */
  lemma PartsFromPart(body: seq<byte>, d: seq<byte>, pos: nat)
    requires pos < |body| && !AtDashes(body, SkipCrLf(body, pos))
    ensures PartsFrom(body, d, pos) == FilesOf(PartAt(body, d, SkipCrLf(body, pos)))
  {
  }

  /** A file the part loop yields is the file of the part at the cursor, which is neither past the body nor on the end marker. */
  lemma PartsFromFile(body: seq<byte>, d: seq<byte>, pos: nat, f: UploadedFile)
    requires PartsFrom(body, d, pos) == Success([f])
    ensures pos < |body| && !AtDashes(body, SkipCrLf(body, pos))
    ensures IsPartFile(body, d, SkipCrLf(body, pos), f)
  {
    PartAtFile(body, d, SkipCrLf(body, pos));
  }

  /** The cursor is neither past the body nor, after the optional CRLF, on the end marker, and the part there is the file `f`. */
  predicate PartIsAt(body: seq<byte>, d: seq<byte>, pos: nat, f: UploadedFile)
  {
    pos < |body| && !AtDashes(body, SkipCrLf(body, pos)) && IsPartFile(body, d, SkipCrLf(body, pos), f)
  }

  /** Conversely, a file that fits the description of the part at the cursor, past the end-marker test, is the one file the part loop yields. */
  lemma PartsFromFound(body: seq<byte>, d: seq<byte>, pos: nat, f: UploadedFile)
    requires d != [] && PartIsAt(body, d, pos, f)
    ensures PartsFrom(body, d, pos) == Success([f])
  {
    PartsFromPart(body, d, pos);
    PartFileFound(body, d, SkipCrLf(body, pos), f);
  }

  /**
   * The part loop of ParseFiles, for a delimiter starting with "--". Because a part
   * leaves the cursor on the next delimiter, whose leading "--" is the end-marker
   * test, the loop examines at most one part.
   */
  method ReadParts(body: seq<byte>, d: seq<byte>, pos: nat) returns (r: Result<seq<UploadedFile>>)
    requires |d| >= 2 && d[0] == 45 && d[1] == 45
    ensures r == PartsFrom(body, d, pos)
  {
    var files: seq<UploadedFile> := [];
    var start := pos;
    var pos := pos;
    ghost var parts := 0;
    while pos < |body|
      invariant parts <= 1
      invariant parts == 0 ==> pos == start && files == []
      invariant parts == 1 ==> OccursAt(body, d, pos) && PartsFrom(body, d, start) == Success(files)
      decreases |body| - pos
    {
      if parts == 1 {
        assert body[pos] == body[pos..pos + |d|][0] == 45;
        assert body[pos + 1] == body[pos..pos + |d|][1] == 45;
      }
      ghost var before := pos;
      if pos + 2 <= |body| && body[pos] == 13 && body[pos + 1] == 10 {
        pos := pos + 2;
      }
      assert pos == SkipCrLf(body, before);
      if pos + 2 <= |body| && body[pos] == 45 && body[pos + 1] == 45 {
        assert AtDashes(body, pos);
        break;
      }
      assert parts == 0;
      var part := ReadPart(body, d, pos);
      PartsFromPart(body, d, start);
      assert PartsFrom(body, d, start) == FilesOf(part);
      if part.Failure? {
        return Failure(part.error);
      }
      if part.value.next < 0 {
        break;
      }
      if part.value.file.Some? {
        files := files + [part.value.file.value];
        assert files == [part.value.file.value];
      }
      assert FilesOf(part) == Success(files);
      pos := part.value.next;
      parts := parts + 1;
    }
    return Success(files);
  }

  /** The Content-Type header of a request (the first, ignoring case). */
  function ContentType(request: Request): Option<string>
  {
    ValueOf(request.headers, ContentTypeHeader, true)
  }

  /**
   * What ParseFiles returns once it has the delimiter `d`: nothing unless the body
   * contains `d`; then the parts are read from just after its first occurrence, which
   * yields at most one file: the one whose header block starts there.
   */
  function FilesAfter(body: seq<byte>, d: seq<byte>): (r: Result<seq<UploadedFile>>)
    ensures r.Failure? ==> r.error == "IndexOutOfRangeException"
    ensures r.Success? ==> |r.value| <= 1
  {
    var first := IndexFrom(body, d, 0);
    if first == -1 then Success([]) else PartsFrom(body, d, first + |d|)
  }

  /**
   * A file ParseFiles returns is the one file the part loop yields from just after
   * the first delimiter (which PartsFromFile describes).
   */
  lemma FilesAfterFile(body: seq<byte>, d: seq<byte>, f: UploadedFile)
    requires FilesAfter(body, d) == Success([f])
    ensures IndexFrom(body, d, 0) != -1 && PartsFrom(body, d, IndexFrom(body, d, 0) + |d|) == Success([f])
  {
    FilesAfterCases(body, d);
  }

  /**
   * The body holds the delimiter, and the part right after its first occurrence (and
   * an optional CRLF) is neither past the body nor the end marker, and is the file `f`.
   */
  predicate FirstPartIs(body: seq<byte>, d: seq<byte>, f: UploadedFile)
  {
    IndexFrom(body, d, 0) != -1 && PartIsAt(body, d, IndexFrom(body, d, 0) + |d|, f)
  }

  /** Conversely, when the first part after the first delimiter is the file `f`, ParseFiles returns exactly that file. */
  lemma FirstFileFound(body: seq<byte>, d: seq<byte>, f: UploadedFile)
    requires d != [] && FirstPartIs(body, d, f)
    ensures FilesAfter(body, d) == Success([f])
  {
    FirstPartFound(body, d, f);
    FilesAfterCases(body, d);
  }

  /** The part loop run from just after the first delimiter yields the file of the first part. */
  lemma FirstPartFound(body: seq<byte>, d: seq<byte>, f: UploadedFile)
    requires d != [] && FirstPartIs(body, d, f)
    ensures IndexFrom(body, d, 0) != -1 && PartsFrom(body, d, IndexFrom(body, d, 0) + |d|) == Success([f])
  {
    PartsFromFound(body, d, IndexFrom(body, d, 0) + |d|, f);
  }

  /** The body half of ParseFiles: find the first delimiter and run the part loop after it. */
  method ReadBody(body: seq<byte>, d: seq<byte>) returns (r: Result<seq<UploadedFile>>)
    requires |d| >= 2 && d[0] == 45 && d[1] == 45
    ensures r == FilesAfter(body, d)
  {
    var first := IndexOf(body, d, 0);
    if first == -1 {
      FilesAfterCases(body, d);
      return Success([]);
    }
    r := ReadParts(body, d, IndexFrom(body, d, 0) + |d|);
    FilesAfterCases(body, d);
  }

  /** FilesAfter by cases on the first delimiter. */
  lemma FilesAfterCases(body: seq<byte>, d: seq<byte>)
    ensures IndexFrom(body, d, 0) == -1 ==> FilesAfter(body, d) == Success([])
    ensures IndexFrom(body, d, 0) != -1 ==> FilesAfter(body, d) == PartsFrom(body, d, IndexFrom(body, d, 0) + |d|)
  {
  }

  /**
   * ParseFiles: reads the Content-Type header and builds the delimiter; without one
   * there are no files, otherwise the body is read with it. A Content-Type part header
   * without ':' fails the whole call.
   */
  method ParseFiles(request: Request, body: seq<byte>) returns (r: Result<seq<UploadedFile>>)
    ensures Delimiter(ContentType(request)).None? ==> r == Success([])
    ensures Delimiter(ContentType(request)).Some? ==> r == FilesAfter(body, Delimiter(ContentType(request)).value)
  {
    var contentType := Lookup(request.headers, ContentTypeHeader, true);
    var delimiter := Delimiter(contentType);
    if delimiter.None? {
      return Success([]);
    }
    r := ReadBody(body, delimiter.value);
  }
}
