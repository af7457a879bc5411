/** Attachment key handling of the chapters and books pages: the filename
    sanitiser, the storage keys built for uploads, the recovery of a storage key
    from a public URL's pathname, and the PDF-only file picker. */
module Attachments {
  import opened Wrappers
  import opened Text

  // ---------------------------------------------------------------------------
  // Filename sanitiser (`sanitizeFilename` in pages/chapters.tsx)
  // ---------------------------------------------------------------------------

  /** The extension: the suffix starting at the last `.`, or empty when there is none. */
  function Extension(filename: string): string {
    var dot := LastIndexOf(filename, '.');
    if dot != -1 then filename[dot..] else ""
  }

  /** The name without its extension. */
  function Stem(filename: string): string {
    var dot := LastIndexOf(filename, '.');
    if dot != -1 then filename[..dot] else filename
  }

  lemma StemExtensionSplit(filename: string)
    ensures Stem(filename) + Extension(filename) == filename
    ensures "." <= Extension(filename) || Extension(filename) == ""
  {
  }

  /** `replace(/[^a-zA-Z0-9]/g, '_')`. JavaScript works on UTF-16 code units, so a
      character outside the Basic Multilingual Plane becomes two underscores there
      and one here; the run-collapsing step that follows erases that difference. */
  function ReplaceNonAlnum(s: string): (r: string)
    ensures |r| == |s|
    ensures forall i :: 0 <= i < |s| ==> r[i] == (if IsAsciiAlnum(s[i]) then s[i] else '_')
  {
    seq(|s|, i requires 0 <= i < |s| => if IsAsciiAlnum(s[i]) then s[i] else '_')
  }

  /** No two adjacent underscores. */
  predicate NoDoubleUnderscore(s: string) {
    forall i :: 0 <= i < |s| - 1 ==> !(s[i] == '_' && s[i + 1] == '_')
  }

  /** Every character is an ASCII letter, a digit or `_`. */
  predicate IsWordChars(s: string) {
    forall i :: 0 <= i < |s| ==> IsAsciiAlnum(s[i]) || s[i] == '_'
  }

  /** A sanitised stem: word characters only, no run of underscores. */
  predicate IsCleanStem(s: string) {
    IsWordChars(s) && NoDoubleUnderscore(s)
  }

  /** `replace(/_+/g, '_')`: every maximal run of underscores becomes one. */
  function CollapseUnderscores(s: string): (r: string)
    ensures |r| <= |s|
    ensures |r| == 0 <==> |s| == 0
    ensures |s| > 0 ==> r[0] == s[0]
    ensures NoDoubleUnderscore(r)
    ensures forall i :: 0 <= i < |r| ==> r[i] in s
  {
    if |s| == 0 then s
    else if |s| >= 2 && s[0] == '_' && s[1] == '_' then CollapseUnderscores(s[1..])
    else [s[0]] + CollapseUnderscores(s[1..])
  }

  /** The characters other than `_`, in order: what collapsing must not disturb. */
  function NonUnderscores(s: string): string {
    if |s| == 0 then "" else (if s[0] == '_' then "" else [s[0]]) + NonUnderscores(s[1..])
  }

  /** Collapsing removes underscores only: every other character survives, in order. */
  lemma {:induction false} CollapseKeepsOtherChars(s: string)
    ensures NonUnderscores(CollapseUnderscores(s)) == NonUnderscores(s)
  {
    if |s| > 0 {
      CollapseKeepsOtherChars(s[1..]);
      if !(|s| >= 2 && s[0] == '_' && s[1] == '_') {
        var rest := CollapseUnderscores(s[1..]);
        assert ([s[0]] + rest)[1..] == rest;
      }
    }
  }

  /** A string without runs of underscores is left as it is. */
  lemma {:induction false} CollapseFixesClean(s: string)
    requires NoDoubleUnderscore(s)
    ensures CollapseUnderscores(s) == s
  {
    if |s| > 0 {
      CollapseFixesClean(s[1..]);
      assert [s[0]] + s[1..] == s;
    }
  }

  /** Shortening any run of underscores by one does not change the result. With
      `CollapseFixesClean` this pins collapsing down: every run becomes exactly one `_`. */
  lemma {:induction false} CollapseShortensRun(x: string, y: string)
    ensures CollapseUnderscores(x + "__" + y) == CollapseUnderscores(x + "_" + y)
  {
    var s := x + "__" + y;
    var t := x + "_" + y;
    if |x| == 0 {
      assert s[1..] == t;
    } else {
      CollapseShortensRun(x[1..], y);
      assert s[1..] == x[1..] + "__" + y;
      assert t[1..] == x[1..] + "_" + y;
      assert s[0] == t[0] && s[1] == t[1];
    }
  }

  /** The sanitised stem: non-alphanumerics replaced, then runs collapsed. */
  function SanitizeStem(stem: string): (r: string)
    ensures IsCleanStem(r)
    ensures |r| <= |stem|
    ensures r == "" <==> stem == ""
  {
    var replaced := ReplaceNonAlnum(stem);
    var r := CollapseUnderscores(replaced);
    assert forall i :: 0 <= i < |r| ==> IsAsciiAlnum(r[i]) || r[i] == '_' by {
      forall i | 0 <= i < |r| ensures IsAsciiAlnum(r[i]) || r[i] == '_' {
        var c := r[i];
        assert c in replaced;
        var k :| 0 <= k < |replaced| && replaced[k] == c;
      }
    }
    r
  }

  /** `sanitizeFilename(filename)`. */
  function SanitizeFilename(filename: string): string {
    SanitizeStem(Stem(filename)) + Extension(filename)
  }

  lemma CleanStemHasNoDot(s: string)
    requires IsWordChars(s)
    ensures LastIndexOf(s, '.') == -1
  {
  }

  /** The last `.` of `clean + ext` is the first character of `ext` when `ext` starts with a dot. */
  lemma LastDotAfterCleanStem(clean: string, ext: string)
    requires IsWordChars(clean)
    requires "." <= ext
    requires LastIndexOf(ext, '.') == 0
    ensures LastIndexOf(clean + ext, '.') == |clean|
  {
    var s := clean + ext;
    assert s[|clean|] == '.';
  }

  lemma ExtensionHasOneDot(filename: string)
    requires Extension(filename) != ""
    ensures LastIndexOf(Extension(filename), '.') == 0
  {
  }

  /** The sanitised name keeps the original extension exactly, and its stem is the sanitised stem. */
  lemma SanitizeKeepsExtension(filename: string)
    ensures Extension(SanitizeFilename(filename)) == Extension(filename)
    ensures Stem(SanitizeFilename(filename)) == SanitizeStem(Stem(filename))
  {
    var clean := SanitizeStem(Stem(filename));
    var ext := Extension(filename);
    var out := clean + ext;
    if ext == "" {
      CleanStemHasNoDot(clean);
      assert out == clean;
    } else {
      StemExtensionSplit(filename);
      ExtensionHasOneDot(filename);
      LastDotAfterCleanStem(clean, ext);
      assert out[|clean|..] == ext;
      assert out[..|clean|] == clean;
    }
  }

  /** Sanitising twice gives the same name as sanitising once. */
  lemma SanitizeIdempotent(filename: string)
    ensures SanitizeFilename(SanitizeFilename(filename)) == SanitizeFilename(filename)
  {
    var once := SanitizeFilename(filename);
    SanitizeKeepsExtension(filename);
    var clean := Stem(once);
    assert IsCleanStem(clean);
    assert ReplaceNonAlnum(clean) == clean;
    CollapseFixesClean(clean);
    StemExtensionSplit(once);
  }

  /** The sanitised stem is empty only when the original stem was (for example `.pdf`). */
  lemma SanitizedStemEmptyIff(filename: string)
    ensures Stem(SanitizeFilename(filename)) == "" <==> Stem(filename) == ""
  {
    SanitizeKeepsExtension(filename);
  }

  // ---------------------------------------------------------------------------
  // Storage keys for uploads
  // ---------------------------------------------------------------------------

  /** `${Date.now()}_${name}`: the key an upload is stored under. */
  function UploadKey(timestamp: nat, name: string): string {
    NatToString(timestamp) + "_" + name
  }

  /** The chapters page sanitises the file name before building the key. */
  function ChapterUploadKey(timestamp: nat, filename: string): string {
    UploadKey(timestamp, SanitizeFilename(filename))
  }

  /** The books page uses the file name exactly as given. */
  function BookUploadKey(timestamp: nat, filename: string): string {
    UploadKey(timestamp, filename)
  }

  /** Reads an upload key back into its timestamp and name: the digits before the first `_`. */
  function DecodeUploadKey(key: string): (r: Option<(nat, string)>)
  {
    var u := IndexOf(key, "_");
    if u <= 0 || !AllDigits(key[..u]) then None
    else Some((ParseDigits(key[..u]), key[u + 1..]))
  }

  /** Decoding an upload key gives back the timestamp and the name it was built from. */
  lemma UploadKeyRoundTrip(timestamp: nat, name: string)
    ensures DecodeUploadKey(UploadKey(timestamp, name)) == Some((timestamp, name))
  {
    var digits := NatToString(timestamp);
    var key := UploadKey(timestamp, name);
    var u := IndexOf(key, "_");
    assert OccursAt(key, "_", |digits|) by {
      assert key[|digits|..|digits| + 1] == "_";
    }
    forall j | 0 <= j < |digits| ensures !OccursAt(key, "_", j) {
      assert key[j..j + 1] == [digits[j]];
    }
    assert u == |digits|;
    assert key[..u] == digits;
    assert key[u + 1..] == name;
    ParseNatToString(timestamp);
  }

  /** Keys built from distinct names (or distinct timestamps) are distinct. */
  lemma UploadKeyInjective(t1: nat, n1: string, t2: nat, n2: string)
    requires UploadKey(t1, n1) == UploadKey(t2, n2)
    ensures t1 == t2 && n1 == n2
  {
    UploadKeyRoundTrip(t1, n1);
    UploadKeyRoundTrip(t2, n2);
  }

  // ---------------------------------------------------------------------------
  // Storage key recovery from a public URL's pathname
  // ---------------------------------------------------------------------------

  const PublicPrefix: string := "/storage/v1/object/public/"
  const ChaptersBucketPrefix: string := "chapters/"

  /** The pathname of the public URL the storage service issues for `key` in `bucket`. */
  function PublicPath(bucket: string, key: string): string {
    PublicPrefix + bucket + "/" + key
  }

  /** Method 1: `pathname.substring(pathname.lastIndexOf('/') + 1)`. */
  function LastSegment(pathname: string): (r: string)
    ensures |r| <= |pathname| && r == pathname[|pathname| - |r|..]
    ensures forall i :: 0 <= i < |r| ==> r[i] != '/'
    ensures |r| < |pathname| ==> pathname[|pathname| - |r| - 1] == '/'
  {
    pathname[LastIndexOf(pathname, '/') + 1..]
  }

  /** `s.split(sep)[1]` when the split has a second part: the text between the
      first occurrence of `sep` and the next one (or the end). */
  function SecondSplitPart(s: string, sep: string): (r: Option<string>)
    requires |sep| > 0
    ensures r.None? <==> !Contains(s, sep)
    ensures r.Some? ==>
      var start := IndexOf(s, sep) + |sep|;
      start + |r.value| <= |s| && s[start..start + |r.value|] == r.value &&
      (forall k :: 0 <= k <= |r.value| ==> !OccursAt(r.value, sep, k)) &&
      (forall k :: start <= k < start + |r.value| ==> !OccursAt(s, sep, k)) &&
      (start + |r.value| == |s| || OccursAt(s, sep, start + |r.value|))
  {
    var i := IndexOf(s, sep);
    if i == -1 then None
    else
      var start := i + |sep|;
      var j := IndexOf(s[start..], sep);
      var n := if j == -1 then |s| - start else j;
      PartOfSuffix(s, sep, start, n, s[start..start + n]);
      Some(s[start..start + n])
  }

  /** The first `n` characters of `s[start..]`, when the separator does not start
      among them and either ends the text there or occurs right after. */
  lemma PartOfSuffix(s: string, sep: string, start: nat, n: nat, part: string)
    requires |sep| > 0 && start + n <= |s| && part == s[start..start + n]
    requires forall k :: 0 <= k < n ==> !OccursAt(s[start..], sep, k)
    requires start + n == |s| || OccursAt(s[start..], sep, n)
    ensures forall k :: start <= k < start + n ==> !OccursAt(s, sep, k)
    ensures forall k :: 0 <= k <= n ==> !OccursAt(part, sep, k)
    ensures start + n == |s| || OccursAt(s, sep, start + n)
  {
    NoneInSuffix(s, start, sep, n);
    BeforeFirstOccurrence(s[start..], sep, n);
    assert s[start..][..n] == s[start..start + n];
    if start + n < |s| {
      OccursInSuffix(s, start, sep, n);
    }
  }

  /** The text before the first occurrence of `sep` does not contain it. */
  lemma BeforeFirstOccurrence(text: string, sep: string, j: nat)
    requires |sep| > 0 && j <= |text|
    requires forall k :: 0 <= k < j ==> !OccursAt(text, sep, k)
    ensures forall k :: 0 <= k <= j ==> !OccursAt(text[..j], sep, k)
  {
    var part := text[..j];
    forall k | 0 <= k <= j
      ensures !OccursAt(part, sep, k)
    {
      if k + |sep| <= j {
        assert !OccursAt(text, sep, k);
        assert part[k..k + |sep|] == text[k..k + |sep|];
      }
    }
  }

  /** An occurrence in a suffix is an occurrence in the whole string. */
  /** No occurrence in the first `n` positions of a suffix is none in `s` there either. */
  lemma NoneInSuffix(s: string, start: nat, sep: string, n: nat)
    requires start + n <= |s|
    requires forall k :: 0 <= k < n ==> !OccursAt(s[start..], sep, k)
    ensures forall k :: start <= k < start + n ==> !OccursAt(s, sep, k)
  {
    forall k | start <= k < start + n
      ensures !OccursAt(s, sep, k)
    {
      assert !OccursAt(s[start..], sep, k - start);
      if k + |sep| <= |s| {
        assert s[k..k + |sep|] == s[start..][k - start..k - start + |sep|];
      }
    }
  }

  lemma OccursInSuffix(s: string, start: nat, sep: string, j: nat)
    requires start <= |s| && OccursAt(s[start..], sep, j)
    ensures OccursAt(s, sep, start + j)
  {
    assert s[start + j..start + j + |sep|] == s[start..][j..j + |sep|];
  }

  /** Method 2: the part after `/storage/v1/object/public/`, with one leading
      `chapters/` removed. `None` when the pathname has no such part. */
  function PublicObjectPath(pathname: string): (r: Option<string>)
    ensures r.None? <==> !Contains(pathname, PublicPrefix)
    ensures r.Some? ==>
      var part := SecondSplitPart(pathname, PublicPrefix).value;
      if StartsWith(part, ChaptersBucketPrefix) then part == ChaptersBucketPrefix + r.value else r.value == part
  {
    match SecondSplitPart(pathname, PublicPrefix)
    case None => None
    case Some(part) =>
      Some(if part != "" && StartsWith(part, ChaptersBucketPrefix) then part[|ChaptersBucketPrefix|..] else part)
  }

  predicate HasNoSlash(s: string) {
    forall i :: 0 <= i < |s| ==> s[i] != '/'
  }

  /** Method 1 recovers any key without `/` from its public pathname. */
  lemma LastSegmentOfPublicPath(bucket: string, key: string)
    requires HasNoSlash(key)
    ensures LastSegment(PublicPath(bucket, key)) == key
  {
    var p := PublicPath(bucket, key);
    assert p[|p| - |key| - 1] == '/';
    assert p[|p| - |key|..] == key;
  }

  /** The public prefix cannot occur in `chapters/` followed by a slash-free key. */
  lemma NoPrefixAfterBucket(key: string)
    requires HasNoSlash(key)
    ensures !Contains(ChaptersBucketPrefix + key, PublicPrefix)
  {
    var rest := ChaptersBucketPrefix + key;
    forall i | 0 <= i ensures !OccursAt(rest, PublicPrefix, i) {
      if i + |PublicPrefix| <= |rest| {
        if i < 8 {
          assert rest[i] == ChaptersBucketPrefix[i] != '/';
          assert rest[i..i + |PublicPrefix|][0] != PublicPrefix[0];
        } else {
          assert rest[i + 8] == key[i - 1] != '/';
          assert rest[i..i + |PublicPrefix|][8] != PublicPrefix[8];
        }
      }
    }
    ContainsIffOccurs(rest, PublicPrefix);
  }

  /** Method 2 recovers any key without `/` from its public pathname in the chapters bucket. */
  lemma PublicObjectPathOfChapterKey(key: string)
    requires HasNoSlash(key)
    ensures PublicObjectPath(PublicPath("chapters", key)) == Some(key)
  {
    var p := PublicPath("chapters", key);
    var rest := ChaptersBucketPrefix + key;
    assert p == PublicPrefix + rest;
    NoPrefixAfterBucket(key);
    SplitAtStart(PublicPrefix, rest);
    assert StartsWith(rest, ChaptersBucketPrefix);
    assert rest[|ChaptersBucketPrefix|..] == key;
  }

  /** A separator at the very start, followed by text without it: the second split
      part is that text. */
  lemma SplitAtStart(sep: string, rest: string)
    requires |sep| > 0 && !Contains(rest, sep)
    ensures SecondSplitPart(sep + rest, sep) == Some(rest)
  {
    var s := sep + rest;
    assert s[..|sep|] == sep;
    assert OccursAt(s, sep, 0);
    assert IndexOf(s, sep) == 0;
    assert s[|sep|..] == rest;
    assert IndexOf(rest, sep) == -1;
    assert s[|sep|..|s|] == rest;
  }

  /** A sanitised chapter upload key contains no `/` when the file name has none. */
  lemma ChapterKeyHasNoSlash(timestamp: nat, filename: string)
    requires HasNoSlash(filename)
    ensures HasNoSlash(ChapterUploadKey(timestamp, filename))
  {
    var clean := SanitizeStem(Stem(filename));
    var ext := Extension(filename);
    var digits := NatToString(timestamp);
    StemExtensionSplit(filename);
    assert HasNoSlash(clean);
    assert HasNoSlash(ext) by {
      assert forall i :: 0 <= i < |ext| ==> ext[i] == filename[|filename| - |ext| + i];
    }
    assert HasNoSlash(digits) by {
      assert forall i :: 0 <= i < |digits| ==> IsDigit(digits[i]);
    }
    NoSlashConcat(clean, ext);
    NoSlashConcat(digits, "_");
    NoSlashConcat(digits + "_", clean + ext);
  }

  lemma NoSlashConcat(a: string, b: string)
    requires HasNoSlash(a) && HasNoSlash(b)
    ensures HasNoSlash(a + b)
  {
  }

  /** Characters the URL parser leaves as they are in a path: ASCII letters and
      digits, `_`, `.` and `-`. A key made of them is its own pathname segment (no
      percent-encoding, no `?` or `#` to cut the path short, no `/`). */
  predicate IsUrlPathSafe(s: string) {
    forall i :: 0 <= i < |s| ==> IsAsciiAlnum(s[i]) || s[i] == '_' || s[i] == '.' || s[i] == '-'
  }

  lemma UrlPathSafeConcat(a: string, b: string)
    requires IsUrlPathSafe(a) && IsUrlPathSafe(b)
    ensures IsUrlPathSafe(a + b)
  {
  }

  /** The chapter upload key is URL-path-safe as soon as the extension is: the
      timestamp is digits and the sanitised stem word characters. */
  lemma ChapterKeyIsUrlPathSafe(timestamp: nat, filename: string)
    requires IsUrlPathSafe(Extension(filename))
    ensures IsUrlPathSafe(ChapterUploadKey(timestamp, filename))
    ensures HasNoSlash(ChapterUploadKey(timestamp, filename))
  {
    var clean := SanitizeStem(Stem(filename));
    var digits := NatToString(timestamp);
    assert IsUrlPathSafe(clean);
    assert IsUrlPathSafe(digits) by {
      assert forall i :: 0 <= i < |digits| ==> IsDigit(digits[i]);
    }
    UrlPathSafeConcat(clean, Extension(filename));
    UrlPathSafeConcat(digits, "_");
    UrlPathSafeConcat(digits + "_", clean + Extension(filename));
  }

  /** The chapter attachment round trip: the key stored for an upload is the key
      both extraction methods read back from its public pathname. */
  lemma ChapterKeyRoundTrip(timestamp: nat, filename: string)
    requires IsUrlPathSafe(Extension(filename))
    ensures LastSegment(PublicPath("chapters", ChapterUploadKey(timestamp, filename))) == ChapterUploadKey(timestamp, filename)
    ensures PublicObjectPath(PublicPath("chapters", ChapterUploadKey(timestamp, filename))) == Some(ChapterUploadKey(timestamp, filename))
  {
    ChapterKeyIsUrlPathSafe(timestamp, filename);
    LastSegmentOfPublicPath("chapters", ChapterUploadKey(timestamp, filename));
    PublicObjectPathOfChapterKey(ChapterUploadKey(timestamp, filename));
  }

  // ---------------------------------------------------------------------------
  // Removal of the previous object
  // ---------------------------------------------------------------------------

  /** What a storage `remove` call came back with. */
  datatype RemoveOutcome = Removed | RemoveError | RemoveThrew

  /** The storage service as seen by one handler: `remove(n, key)` is what its `n`-th
      `remove` call (counting from 0) returns for `key`, so a second call with the
      same key may come back differently. */
  type Remover = (nat, string) -> RemoveOutcome

  /** `updateChapter`: the key of the previous attachment to remove, Method 1 only,
      skipped when that key is empty. */
  function ReplacedObjectKey(pathname: string): (r: Option<string>)
    ensures r.Some? <==> LastSegment(pathname) != ""
    ensures r.Some? ==> r.value == LastSegment(pathname) && HasNoSlash(r.value)
  {
    var k := LastSegment(pathname);
    if k != "" then Some(k) else None
  }

  /** Replacing an attachment this page uploaded removes exactly that upload. */
  lemma ReplacedKeyIsUploadKey(timestamp: nat, filename: string)
    requires IsUrlPathSafe(Extension(filename))
    ensures ReplacedObjectKey(PublicPath("chapters", ChapterUploadKey(timestamp, filename))) == Some(ChapterUploadKey(timestamp, filename))
  {
    ChapterKeyRoundTrip(timestamp, filename);
    assert |NatToString(timestamp)| > 0;
  }

  /** Every `remove` call of a chain but the last, numbered from `base`, failed to
      remove its object: the handler moves on only after a failure. */
  ghost predicate StopsAtSuccess(keys: seq<string>, remove: Remover, base: nat)
  {
    forall i :: 0 <= i < |keys| - 1 ==> remove(base + i, keys[i]) != Removed
  }

  /** Putting a failed first call in front of a chain that stops at success keeps it so. */
  lemma StopsAtSuccessCons(first: string, rest: seq<string>, remove: Remover)
    requires remove(0, first) != Removed && StopsAtSuccess(rest, remove, 1)
    ensures StopsAtSuccess([first] + rest, remove, 0)
  {
    var keys := [first] + rest;
    forall i | 0 <= i < |keys| - 1
      ensures remove(i, keys[i]) != Removed
    {
      if i > 0 {
        assert keys[i] == rest[i - 1];
      }
    }
  }

  /** The calls of `handleDeleteChapter` after Method 1 did not succeed, the first
      being call number `base`: Method 2 when its key is non-empty; if that call
      returned an error, the last `/`-segment of the whole URL when non-empty. A call
      that throws ends the chain. */
  function FallbackAttempts(pathname: string, url: string, remove: Remover, base: nat): (keys: seq<string>)
    ensures |keys| <= 2
    ensures |keys| > 0 <==> PublicObjectPath(pathname).Some? && PublicObjectPath(pathname).value != ""
    ensures |keys| > 0 ==> keys[0] == PublicObjectPath(pathname).value
    ensures |keys| == 2 <==> |keys| > 0 && remove(base, keys[0]) == RemoveError && LastSegment(url) != ""
    ensures |keys| == 2 ==> keys[1] == LastSegment(url)
    ensures forall i :: 0 <= i < |keys| ==> keys[i] != ""
    ensures StopsAtSuccess(keys, remove, base)
  {
    match PublicObjectPath(pathname)
    case Some(full) =>
      if full == "" then []
      else if remove(base, full) == RemoveError then
        var direct := LastSegment(url);
        [full] + (if direct != "" then [direct] else [])
      else [full]
    case None => []
  }

  /** A first call followed by fallbacks: an empty first key is skipped (the fallbacks
      start at call 0), a successful first call ends the chain, a failed one is
      followed by the fallbacks starting at call 1. */
  function Chain(first: string, remove: Remover, fromZero: seq<string>, fromOne: seq<string>): (keys: seq<string>)
    requires StopsAtSuccess(fromZero, remove, 0) && StopsAtSuccess(fromOne, remove, 1)
    requires forall i :: 0 <= i < |fromZero| ==> fromZero[i] != ""
    requires forall i :: 0 <= i < |fromOne| ==> fromOne[i] != ""
    ensures StopsAtSuccess(keys, remove, 0)
    ensures forall i :: 0 <= i < |keys| ==> keys[i] != ""
    ensures first == "" ==> keys == fromZero
    ensures first != "" && remove(0, first) == Removed ==> keys == [first]
    ensures first != "" && remove(0, first) != Removed ==> keys == [first] + fromOne
  {
    if first == "" then fromZero
    else if remove(0, first) == Removed then [first]
    else
      StopsAtSuccessCons(first, fromOne, remove);
      [first] + fromOne
  }

  /** `handleDeleteChapter`: the keys passed to `remove`, in call order. Method 1
      first (when non-empty); the fallbacks only if it did not succeed. */
  function DeletionAttempts(pathname: string, url: string, remove: Remover): (keys: seq<string>)
    ensures |keys| <= 3
    ensures forall i :: 0 <= i < |keys| ==> keys[i] != ""
    ensures StopsAtSuccess(keys, remove, 0)
    ensures LastSegment(pathname) == "" ==> keys == FallbackAttempts(pathname, url, remove, 0)
    ensures LastSegment(pathname) != "" ==> |keys| > 0 && keys[0] == LastSegment(pathname)
    ensures LastSegment(pathname) != "" && remove(0, LastSegment(pathname)) == Removed ==> keys == [LastSegment(pathname)]
    ensures LastSegment(pathname) != "" && remove(0, LastSegment(pathname)) != Removed ==>
      keys == [LastSegment(pathname)] + FallbackAttempts(pathname, url, remove, 1)
  {
    var fromZero := FallbackAttempts(pathname, url, remove, 0);
    var fromOne := FallbackAttempts(pathname, url, remove, 1);
    Chain(LastSegment(pathname), remove, fromZero, fromOne)
  }

  /** Method 1 on a URL ending in `/` and a slash-free key gives that key. */
  lemma LastSegmentAfterSlash(prefix: string, key: string)
    requires HasNoSlash(key)
    ensures LastSegment(prefix + "/" + key) == key
  {
    var p := prefix + "/" + key;
    assert p[|p| - |key| - 1] == '/';
    assert p[|p| - |key|..] == key;
  }

  /** For an attachment this page uploaded, all three methods name the same key: when
      the first call fails and the second returns an error, the delete handler asks
      for the same object three times. */
  lemma UploadedKeyTriedThreeTimes(timestamp: nat, filename: string, origin: string, remove: Remover)
    requires IsUrlPathSafe(Extension(filename))
    requires var k := ChapterUploadKey(timestamp, filename);
             remove(0, k) != Removed && remove(1, k) == RemoveError
    ensures var k := ChapterUploadKey(timestamp, filename);
            var path := PublicPath("chapters", k);
            DeletionAttempts(path, origin + path, remove) == [k, k, k]
  {
    var k := ChapterUploadKey(timestamp, filename);
    ChapterKeyIsUrlPathSafe(timestamp, filename);
    assert k[|NatToString(timestamp)|] == '_';
    SameKeyTriedThreeTimes(origin, k, remove);
  }

  /** Every method reads a slash-free key back from its public URL in the chapters
      bucket, so a failed first call and an error on the second lead to three calls
      with that key. */
  lemma SameKeyTriedThreeTimes(origin: string, key: string, remove: Remover)
    requires key != "" && HasNoSlash(key)
    requires remove(0, key) != Removed && remove(1, key) == RemoveError
    ensures var path := PublicPath("chapters", key);
            DeletionAttempts(path, origin + path, remove) == [key, key, key]
  {
    var path := PublicPath("chapters", key);
    LastSegmentOfPublicPath("chapters", key);
    PublicObjectPathOfChapterKey(key);
    LastSegmentOfChapterUrl(origin, key);
    var fallbacks := FallbackAttempts(path, origin + path, remove, 1);
    assert |fallbacks| == 2;
    assert DeletionAttempts(path, origin + path, remove) == [key] + fallbacks;
  }

  /** Method 1 on a full URL of a slash-free key in the chapters bucket. */
  lemma LastSegmentOfChapterUrl(origin: string, key: string)
    requires HasNoSlash(key)
    ensures LastSegment(origin + PublicPath("chapters", key)) == key
  {
    assert origin + PublicPath("chapters", key) == (origin + PublicPrefix + "chapters") + "/" + key;
    LastSegmentAfterSlash(origin + PublicPrefix + "chapters", key);
  }


  // ---------------------------------------------------------------------------
  // File picker
  // ---------------------------------------------------------------------------

  /** The selected file as the browser describes it. */
  datatype FileInfo = FileInfo(name: string, mimeType: string)

  const PdfMimeType: string := "application/pdf"
  const NotPdfMessage: string := "Please upload a PDF file"

  /** `handleFileChange`: the pending file and the error message it sets, if any.
      Anything but a PDF (or no file at all) clears the pending file. */
  function AcceptFile(picked: Option<FileInfo>): (r: (Option<FileInfo>, Option<string>))
    ensures r.0.Some? <==> picked.Some? && picked.value.mimeType == PdfMimeType
    ensures r.0.Some? ==> r.0 == picked && r.1.None?
    ensures r.0.None? ==> r.1 == Some(NotPdfMessage)
  {
    if picked.Some? && picked.value.mimeType == PdfMimeType then (picked, None)
    else (None, Some(NotPdfMessage))
  }
}
