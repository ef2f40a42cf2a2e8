/** The document ingestor: turning a file reference into a remote file name
    that satisfies the backend's naming rules, and reusing a file that is
    already uploaded under that name instead of uploading it again. */
module GeminiService {
  import opened Results
  import Text

  /** The default `max_length` of `sanitize_file_name`. */
  const DefaultMaxLength: int := 40

  /** The characters the backend allows besides '-'. */
  predicate IsSlugChar(c: char) {
    'a' <= c <= 'z' || '0' <= c <= '9'
  }

  predicate NotSlugChar(c: char) {
    !IsSlugChar(c)
  }

  predicate IsDash(c: char) {
    c == '-'
  }

  predicate IsAsciiAlnum(c: char) {
    'a' <= c <= 'z' || 'A' <= c <= 'Z' || '0' <= c <= '9'
  }

  /** `str.lower()` restricted to ASCII letters. */
  function LowerAscii(c: char): (l: char)
    ensures IsSlugChar(l) <==> IsAsciiAlnum(c)
  {
    if 'A' <= c <= 'Z' then (c as int + 32) as char else c
  }

  function Lower(s: string): (r: string)
    ensures |r| == |s|
    ensures forall k :: 0 <= k < |s| ==> r[k] == LowerAscii(s[k])
  {
    seq(|s|, k requires 0 <= k < |s| => LowerAscii(s[k]))
  }

  /** Two dashes start at position `k` of `s`. */
  predicate DoubleDashAt(s: string, k: nat)
    requires k + 1 < |s|
  {
    s[k] == '-' && s[k + 1] == '-'
  }

  predicate NoDoubleDash(s: string) {
    forall k: nat :: k + 1 < |s| ==> !DoubleDashAt(s, k)
  }

  predicate OnlyNameChars(s: string) {
    forall k :: 0 <= k < |s| ==> IsSlugChar(s[k]) || s[k] == '-'
  }

  /** A name the backend accepts: non-empty, lower-case alphanumerics and
      single dashes, with no dash at either end. */
  predicate WellFormedName(s: string) {
    && s != []
    && OnlyNameChars(s)
    && NoDoubleDash(s)
    && s[0] != '-'
    && s[|s| - 1] != '-'
  }

  /** The allowed characters of `s`, in order. */
  function SlugChars(s: string): string
    decreases |s|
  {
    if s == [] then [] else (if IsSlugChar(s[0]) then [s[0]] else []) + SlugChars(s[1..])
  }

  lemma {:induction false} SlugCharsEmpty(s: string)
    ensures SlugChars(s) == [] <==> forall k :: 0 <= k < |s| ==> !IsSlugChar(s[k])
    decreases |s|
  {
    if s != [] {
      SlugCharsEmpty(s[1..]);
      assert forall k :: 1 <= k < |s| ==> s[k] == s[1..][k - 1];
    }
  }

  /** Dropping a leading run of disallowed characters loses no allowed one. */
  lemma {:induction false} SlugCharsSkipRun(s: string)
    ensures SlugChars(Text.TrimStart(s, NotSlugChar)) == SlugChars(s)
    decreases |s|
  {
    if s != [] && NotSlugChar(s[0]) {
      SlugCharsSkipRun(s[1..]);
    }
  }

  /** An allowed character, or a dash before something other than a dash,
      in front of a string of allowed characters and single dashes. */
  lemma PrependNameChar(c: char, rest: string)
    requires OnlyNameChars(rest) && NoDoubleDash(rest)
    requires IsSlugChar(c) || (c == '-' && (rest == [] || rest[0] != '-'))
    ensures OnlyNameChars([c] + rest) && NoDoubleDash([c] + rest)
  {
    var t := [c] + rest;
    forall k | 0 <= k < |t|
      ensures IsSlugChar(t[k]) || t[k] == '-'
    {
      if k > 0 {
        assert t[k] == rest[k - 1];
      }
    }
    forall k: nat | k + 1 < |t|
      ensures !DoubleDashAt(t, k)
    {
      if k > 0 {
        assert !DoubleDashAt(rest, k - 1);
        assert t[k] == rest[k - 1] && t[k + 1] == rest[k];
      }
    }
  }

  /** `re.sub(r'[^a-z0-9]+', '-', s)`: every maximal run of characters other
      than [a-z0-9] becomes one dash. */
  function DashRuns(s: string): (r: string)
    ensures OnlyNameChars(r)
    ensures NoDoubleDash(r)
    ensures SlugChars(r) == SlugChars(s)
    ensures s != [] ==> r != [] && (IsSlugChar(s[0]) ==> r[0] == s[0]) && (!IsSlugChar(s[0]) ==> r[0] == '-')
    decreases |s|
  {
    if s == [] then []
    else if IsSlugChar(s[0]) then
      var rest := DashRuns(s[1..]);
      PrependNameChar(s[0], rest);
      assert ([s[0]] + rest)[1..] == rest;
      [s[0]] + rest
    else
      var tail := Text.TrimStart(s, NotSlugChar);
      SlugCharsSkipRun(s);
      var rest := DashRuns(tail);
      PrependNameChar('-', rest);
      assert ("-" + rest)[1..] == rest;
      "-" + rest
  }

  /** Reference reading of the substitution, one character at a time: an
      allowed character is copied, a disallowed one becomes '-' unless the
      previous character was disallowed too. */
  function Squeeze(s: string, afterRun: bool): string
    decreases |s|
  {
    if s == [] then []
    else if IsSlugChar(s[0]) then [s[0]] + Squeeze(s[1..], false)
    else if afterRun then Squeeze(s[1..], true)
    else "-" + Squeeze(s[1..], true)
  }

  lemma {:induction false} SqueezeSkipsRun(s: string)
    ensures Squeeze(s, true) == Squeeze(Text.TrimStart(s, NotSlugChar), true)
    decreases |s|
  {
    if s != [] && NotSlugChar(s[0]) {
      SqueezeSkipsRun(s[1..]);
    }
  }

  /** The run-at-a-time substitution agrees with the character-at-a-time
      reading: each maximal disallowed run yields exactly one dash. */
  lemma {:induction false} DashRunsIsSqueeze(s: string)
    ensures DashRuns(s) == Squeeze(s, false)
    decreases |s|
  {
    if s != [] {
      if IsSlugChar(s[0]) {
        DashRunsIsSqueeze(s[1..]);
      } else {
        var tail := Text.TrimStart(s, NotSlugChar);
        DashRunsIsSqueeze(tail);
        SqueezeSkipsRun(s[1..]);
        assert Text.TrimStart(s[1..], NotSlugChar) == tail;
        assert tail == [] || IsSlugChar(tail[0]);
        assert Squeeze(tail, true) == Squeeze(tail, false);
      }
    }
  }

  /** Dropping the first character keeps a string made of allowed characters
      and single dashes so, and a leading dash is followed by an allowed
      character. */
  lemma NameCharsTail(s: string)
    requires s != [] && OnlyNameChars(s) && NoDoubleDash(s)
    ensures OnlyNameChars(s[1..]) && NoDoubleDash(s[1..])
    ensures s[0] == '-' && |s| > 1 ==> IsSlugChar(s[1])
  {
    var t := s[1..];
    forall k | 0 <= k < |t|
      ensures IsSlugChar(t[k]) || t[k] == '-'
    {
      assert t[k] == s[k + 1];
    }
    forall k: nat | k + 1 < |t|
      ensures !DoubleDashAt(t, k)
    {
      assert !DoubleDashAt(s, k + 1);
      assert t[k] == s[k + 1] && t[k + 1] == s[k + 2];
    }
    if |s| > 1 {
      assert !DoubleDashAt(s, 0);
      assert IsSlugChar(s[1]) || s[1] == '-';
    }
  }

  lemma SkipOneDash(s: string)
    requires s != [] && s[0] == '-'
    requires |s| > 1 ==> IsSlugChar(s[1])
    ensures Text.TrimStart(s, NotSlugChar) == s[1..]
  {
    var t := s[1..];
    assert t == [] || !NotSlugChar(t[0]);
    assert Text.TrimStart(t, NotSlugChar) == t;
  }

  /** The substitution turns a lone dash in front of an allowed character
      (or at the end) into itself. */
  lemma DashRunsKeepsDash(s: string)
    requires s != [] && s[0] == '-'
    requires |s| > 1 ==> IsSlugChar(s[1])
    requires DashRuns(s[1..]) == s[1..]
    ensures DashRuns(s) == s
  {
    SkipOneDash(s);
    assert DashRuns(s) == "-" + DashRuns(s[1..]);
  }

  /** A string already made of allowed characters and single dashes is left
      alone by the substitution. */
  lemma {:induction false} DashRunsUnchanged(s: string)
    requires OnlyNameChars(s) && NoDoubleDash(s)
    ensures DashRuns(s) == s
    decreases |s|
  {
    if s != [] {
      NameCharsTail(s);
      DashRunsUnchanged(s[1..]);
      if IsSlugChar(s[0]) {
        assert DashRuns(s) == [s[0]] + s[1..];
      } else {
        DashRunsKeepsDash(s);
      }
    }
  }

  /** Python's `s[:n]`; a negative `n` counts from the end. */
  function PyPrefix(s: string, n: int): (r: string)
    ensures |r| <= |s| && r == s[..|r|]
    ensures n >= 0 ==> |r| == if n < |s| then n else |s|
    ensures n < 0 ==> |r| == if |s| + n > 0 then |s| + n else 0
  {
    if n >= 0 then (if n < |s| then s[..n] else s)
    else if |s| + n > 0 then s[..|s| + n]
    else []
  }

  datatype NameError =
    | InvalidName        // the name is empty
    | EmptyAfterCleanup  // nothing is left once disallowed characters are gone

  /** `sanitize_file_name(name, max_length)` */
  function SanitizeFileName(name: string, maxLength: int): (r: Result<string, NameError>)
    ensures r == Err(InvalidName) <==> name == []
    ensures r.Ok? ==> WellFormedName(r.value)
    ensures r.Ok? && maxLength >= 0 ==> |r.value| <= maxLength
    ensures r.Ok? ==> Text.StartsWith(Text.Trim(DashRuns(Lower(name)), IsDash), r.value)
    ensures r.Ok? ==> var stripped := Text.Trim(DashRuns(Lower(name)), IsDash);
      forall k :: |r.value| <= k < |PyPrefix(stripped, maxLength)| ==> stripped[k] == '-'
    ensures r.Ok? ==> |r.value| <= |PyPrefix(Text.Trim(DashRuns(Lower(name)), IsDash), maxLength)|
    ensures name != [] ==> var cut := PyPrefix(Text.Trim(DashRuns(Lower(name)), IsDash), maxLength);
      (r == Err(EmptyAfterCleanup) <==> forall k :: 0 <= k < |cut| ==> cut[k] == '-')
    ensures maxLength >= 1 ==>
      (r == Err(EmptyAfterCleanup) <==> name != [] && forall k :: 0 <= k < |name| ==> !IsAsciiAlnum(name[k]))
  {
    if name == [] then Err(InvalidName)
    else
      var runs := DashRuns(Lower(name));
      var stripped := Text.Trim(runs, IsDash);
      var cut := PyPrefix(stripped, maxLength);
      var result := Text.TrimEnd(cut, IsDash);
      SanitizeShape(runs, stripped, cut, result, maxLength);
      SanitizeEmptiness(name, maxLength, runs, stripped, cut, result);
      CutDashesOnly(stripped, cut, result);
      if result == [] then Err(EmptyAfterCleanup) else Ok(result)
  }

  /** Only dashes lie between the end of the result and the cut. */
  lemma CutDashesOnly(stripped: string, cut: string, result: string)
    requires |cut| <= |stripped| && cut == stripped[..|cut|]
    requires result == Text.TrimEnd(cut, IsDash)
    ensures forall k :: |result| <= k < |cut| ==> stripped[k] == '-'
    ensures |result| <= |cut|
    ensures result == [] <==> forall k :: 0 <= k < |cut| ==> cut[k] == '-'
  {
    if result != [] {
      assert cut[|result| - 1] == result[|result| - 1];
    }
    forall k | |result| <= k < |cut|
      ensures stripped[k] == '-'
    {
      assert cut[k] == stripped[k];
    }
  }

  /** A piece cut out of a string of allowed characters and single dashes
      is such a string too. */
  lemma ShapeOfSlice(s: string, i: int, j: int)
    requires 0 <= i <= j <= |s|
    requires OnlyNameChars(s) && NoDoubleDash(s)
    ensures OnlyNameChars(s[i..j]) && NoDoubleDash(s[i..j])
  {
    var t := s[i..j];
    forall k | 0 <= k < |t|
      ensures IsSlugChar(t[k]) || t[k] == '-'
    {
      assert t[k] == s[i + k];
    }
    forall k: nat | k + 1 < |t|
      ensures !DoubleDashAt(t, k)
    {
      assert !DoubleDashAt(s, i + k);
      assert t[k] == s[i + k] && t[k + 1] == s[i + k + 1];
    }
  }

  /** A string of allowed characters and single dashes. */
  predicate DashShaped(s: string) {
    OnlyNameChars(s) && NoDoubleDash(s)
  }

  lemma ShapeOfSuffix(s: string, i: nat)
    requires i <= |s| && DashShaped(s)
    ensures DashShaped(s[i..])
  {
    ShapeOfSlice(s, i, |s|);
    assert s[i..] == s[i..|s|];
  }

  /** Cutting dashes off the front of a dash-shaped string. */
  lemma ShapeAfterTrimStart(runs: string, left: string)
    requires DashShaped(runs)
    requires left == Text.TrimStart(runs, IsDash)
    ensures DashShaped(left)
    ensures left == [] || left[0] != '-'
  {
    var i := |runs| - |left|;
    assert left == runs[i..];
    ShapeOfSuffix(runs, i);
  }

  /** Cutting a prefix, then dashes off its back, keeps a dash-shaped string
      with no dash in front so, and leaves no dash at the back. */
  lemma ShapeAfterCut(s: string, cut: string, r: string)
    requires DashShaped(s) && (s == [] || s[0] != '-')
    requires |cut| <= |s| && cut == s[..|cut|]
    requires r == Text.TrimEnd(cut, IsDash)
    ensures DashShaped(r) && r == s[..|r|]
    ensures r != [] ==> r[0] != '-' && r[|r| - 1] != '-'
  {
    ShapeOfSlice(s, 0, |r|);
    assert r == s[0..|r|];
  }

  lemma SanitizeShape(runs: string, stripped: string, cut: string, result: string, maxLength: int)
    requires OnlyNameChars(runs) && NoDoubleDash(runs)
    requires stripped == Text.Trim(runs, IsDash)
    requires cut == PyPrefix(stripped, maxLength)
    requires result == Text.TrimEnd(cut, IsDash)
    ensures result != [] ==> WellFormedName(result)
    ensures Text.StartsWith(stripped, result)
  {
    var left := Text.TrimStart(runs, IsDash);
    ShapeAfterTrimStart(runs, left);
    ShapeAfterCut(left, left, stripped);
    ShapeAfterCut(stripped, cut, result);
  }

  lemma SanitizeEmptiness(name: string, maxLength: int, runs: string, stripped: string, cut: string, result: string)
    requires runs == DashRuns(Lower(name))
    requires stripped == Text.Trim(runs, IsDash)
    requires cut == PyPrefix(stripped, maxLength)
    requires result == Text.TrimEnd(cut, IsDash)
    ensures maxLength >= 1 ==> (result == [] <==> forall k :: 0 <= k < |name| ==> !IsAsciiAlnum(name[k]))
  {
    var lowered := Lower(name);
    var left := Text.TrimStart(runs, IsDash);
    SlugCharsEmpty(lowered);
    SlugCharsEmpty(runs);
    if forall k :: 0 <= k < |name| ==> !IsAsciiAlnum(name[k]) {
      assert forall k :: 0 <= k < |lowered| ==> !IsSlugChar(lowered[k]);
      assert forall k :: 0 <= k < |runs| ==> runs[k] == '-';
      assert left == [];
    } else if maxLength >= 1 {
      var j :| 0 <= j < |name| && IsAsciiAlnum(name[j]);
      assert IsSlugChar(lowered[j]);
      var i :| 0 <= i < |runs| && IsSlugChar(runs[i]);
      assert left != [];
      assert stripped != [] && stripped[0] == left[0];
      assert cut != [] && cut[0] == stripped[0];
    }
  }

  /** Sanitising an already sanitised name changes nothing. */
  lemma SanitizeFileNameIdempotent(name: string, maxLength: int)
    requires maxLength >= 0
    requires SanitizeFileName(name, maxLength).Ok?
    ensures SanitizeFileName(SanitizeFileName(name, maxLength).value, maxLength) == SanitizeFileName(name, maxLength)
  {
    WellFormedNameKept(SanitizeFileName(name, maxLength).value, maxLength);
  }

  /** A well-formed name that fits the length comes back unchanged. */
  lemma WellFormedNameKept(t: string, maxLength: int)
    requires WellFormedName(t) && 0 <= |t| <= maxLength
    ensures SanitizeFileName(t, maxLength) == Ok(t)
  {
    assert Lower(t) == t;
    DashRunsUnchanged(t);
    Text.TrimUnchanged(t, IsDash);
    assert PyPrefix(t, maxLength) == t;
    assert Text.TrimEnd(t, IsDash) == t;
  }

  /** What `upload_file` is handed: a path or URL string, raw bytes, or an
      open file object, which may carry a `name` attribute. */
  datatype FileInput =
    | Reference(text: string)
    | Bytes(data: seq<bv8>)
    | Stream(name: Option<string>)

  /** Python truthiness of the input: empty strings and byte strings are
      falsy, file objects are not. */
  predicate InputTruthy(file: FileInput) {
    match file
    case Reference(text) => text != []
    case Bytes(data) => data != []
    case Stream(_) => true
  }

  predicate IsUrl(s: string) {
    Text.StartsWith(s, "http://") || Text.StartsWith(s, "https://")
  }

  /** `os.path.basename(p)`: everything after the last '/'. */
  function Basename(p: string): (b: string)
    ensures |b| <= |p| && b == p[|p| - |b|..]
    ensures forall k :: 0 <= k < |b| ==> b[k] != '/'
    ensures |b| < |p| ==> p[|p| - |b| - 1] == '/'
  {
    p[Text.LastIndexOf(p, '/') + 1..]
  }

  /** `os.path.splitext(p)[0]`: drop the text from the last '.' on, unless
      that dot is in a directory part or only dots precede it in the last
      component (so ".env" keeps its name). */
  function SplitExtRoot(p: string): (root: string)
    ensures |root| <= |p| && root == p[..|root|]
    ensures |root| < |p| ==> p[|root|] == '.' && forall k :: |root| < k < |p| ==> p[k] != '.' && p[k] != '/'
    ensures |root| < |p| ==> exists k :: Text.LastIndexOf(p, '/') < k < |root| && p[k] != '.'
    ensures (exists k :: Text.LastIndexOf(p, '/') < k < Text.LastIndexOf(p, '.') && p[k] != '.') ==>
      |root| == Text.LastIndexOf(p, '.')
  {
    var sep := Text.LastIndexOf(p, '/');
    var dot := Text.LastIndexOf(p, '.');
    if dot > sep && exists k :: sep < k < dot && p[k] != '.' then p[..dot] else p
  }

  /** `os.path.basename(url.split("?")[0])`: the last path segment of a URL
      without its query string. */
  function UrlBasename(url: string): (b: string)
    ensures forall k :: 0 <= k < |b| ==> b[k] != '/' && b[k] != '?'
  {
    var path := Text.BeforeFirst(url, '?');
    var b := Basename(path);
    forall k | 0 <= k < |b|
      ensures b[k] != '?'
    {
      assert b[k] == path[|path| - |b| + k];
    }
    b
  }

  datatype UploadError =
    | NoFileName                  // no name given and none can be derived
    | BadName(reason: NameError)  // the derived name sanitises to nothing
    | TransferFailed              // download, local read or upload raised

  /** The name `upload_file` works from: the explicit `file_name` when it is
      truthy, otherwise the basename of the URL path (before any '?'), of the
      path, or of the file object's `name`. */
  function SourceName(file: FileInput, fileName: Option<string>): (r: Result<string, UploadError>)
    ensures fileName.Some? && fileName.value != [] ==> r == Ok(fileName.value)
    ensures r.Err? <==> (fileName.None? || fileName.value == []) && (file.Bytes? || file == Stream(None))
    ensures r.Ok? && (fileName.None? || fileName.value == []) ==> forall k :: 0 <= k < |r.value| ==> r.value[k] != '/'
    ensures r.Ok? && (fileName.None? || fileName.value == []) && file.Reference? && IsUrl(file.text) ==>
      forall k :: 0 <= k < |r.value| ==> r.value[k] != '?'
    ensures (fileName.None? || fileName.value == []) && file.Reference? ==>
      r == Ok(if IsUrl(file.text) then UrlBasename(file.text) else Basename(file.text))
    ensures (fileName.None? || fileName.value == []) && file.Stream? && file.name.Some? ==>
      r == Ok(Basename(file.name.value))
  {
    if fileName.Some? && fileName.value != [] then Ok(fileName.value)
    else
      match file
      case Reference(text) =>
        if IsUrl(text) then Ok(UrlBasename(text)) else Ok(Basename(text))
      case Bytes(_) => Err(NoFileName)
      case Stream(name) => if name.Some? then Ok(Basename(name.value)) else Err(NoFileName)
  }

  /** The remote key `files/<sanitised stem>` under which the document is
      looked up and uploaded. */
  function RemoteKey(file: FileInput, fileName: Option<string>): (r: Result<string, UploadError>)
    ensures r.Ok? ==> exists stem :: WellFormedName(stem) && |stem| <= DefaultMaxLength && r.value == "files/" + stem
    ensures SourceName(file, fileName).Err? ==> r == Err(SourceName(file, fileName).error)
    ensures SourceName(file, fileName).Ok? ==>
      var stem := SanitizeFileName(SplitExtRoot(SourceName(file, fileName).value), DefaultMaxLength);
      && (stem.Ok? ==> r == Ok("files/" + stem.value))
      && (stem.Err? ==> r == Err(BadName(stem.error)))
  {
    match SourceName(file, fileName)
    case Err(e) => Err(e)
    case Ok(name) =>
      match SanitizeFileName(SplitExtRoot(name), DefaultMaxLength)
      case Err(reason) => Err(BadName(reason))
      case Ok(stem) => Ok("files/" + stem)
  }

  /** A well-formed name has no extension to drop. */
  lemma NoExtension(stem: string)
    requires OnlyNameChars(stem)
    ensures SplitExtRoot(stem) == stem
  {
    assert Text.LastIndexOf(stem, '.') == -1;
  }

  /** Naming the file after the stem of its key leads to the same key. */
  lemma RemoteKeyStemReused(file: FileInput, fileName: Option<string>)
    requires RemoteKey(file, fileName).Ok?
    ensures |RemoteKey(file, fileName).value| > 6
    ensures RemoteKey(file, Some(RemoteKey(file, fileName).value[6..])) == RemoteKey(file, fileName)
  {
    var name := SourceName(file, fileName).value;
    var stem := SanitizeFileName(SplitExtRoot(name), DefaultMaxLength).value;
    assert RemoteKey(file, fileName).value[6..] == stem;
    StemSanitizesToItself(SplitExtRoot(name));
  }

  /** A sanitised stem has no extension to split off and sanitises to
      itself. */
  lemma StemSanitizesToItself(root: string)
    requires SanitizeFileName(root, DefaultMaxLength).Ok?
    ensures var stem := SanitizeFileName(root, DefaultMaxLength).value;
      stem != [] && SanitizeFileName(SplitExtRoot(stem), DefaultMaxLength) == Ok(stem)
  {
    var stem := SanitizeFileName(root, DefaultMaxLength).value;
    NoExtension(stem);
    SanitizeFileNameIdempotent(root, DefaultMaxLength);
  }

  datatype Upload =
    | Reused(handle: string)    // the key was already among the remote files
    | Uploaded(handle: string)  // the bytes were sent under the key

  /** `upload_file(file, file_name)` against the set of remote file names.
      `transferOk` says whether fetching and sending the bytes succeeds; it is
      consulted only when a new upload is needed. */
  function UploadFile(file: FileInput, fileName: Option<string>, remote: set<string>, transferOk: bool): (r: Result<Upload, UploadError>)
    ensures RemoteKey(file, fileName).Err? ==> r == Err(RemoteKey(file, fileName).error)
    ensures RemoteKey(file, fileName).Ok? ==> var key := RemoteKey(file, fileName).value;
      && (key in remote ==> r == Ok(Reused(key)))
      && (key !in remote && transferOk ==> r == Ok(Uploaded(key)))
      && (key !in remote && !transferOk ==> r == Err(TransferFailed))
  {
    match RemoteKey(file, fileName)
    case Err(e) => Err(e)
    case Ok(key) =>
      if key in remote then Ok(Reused(key))
      else if transferOk then Ok(Uploaded(key))
      else Err(TransferFailed)
  }

  /** The remote file names after an upload call. */
  function RemoteAfter(remote: set<string>, r: Result<Upload, UploadError>): set<string> {
    if r.Ok? && r.value.Uploaded? then remote + {r.value.handle} else remote
  }

  /** Uploading the same reference again finds the file already there: the
      same handle comes back and nothing is sent, whatever the transfer would
      do. */
  lemma UploadIdempotent(file: FileInput, fileName: Option<string>, remote: set<string>, transferOk: bool, again: bool)
    requires UploadFile(file, fileName, remote, transferOk).Ok?
    ensures var first := UploadFile(file, fileName, remote, transferOk);
      UploadFile(file, fileName, RemoteAfter(remote, first), again) == Ok(Reused(first.value.handle))
  {
  }
}
