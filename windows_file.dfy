/**
 * The pure helpers of the Windows file layer: UNC-prefix handling, the
 * drive-letter check, the absolute-normalized-path validator and the path
 * guards in front of every OS call, the fixed-width hex formatter, the
 * classification of a directory's children, and the reparse-buffer
 * arithmetic of junction creation. Strings are sequences of UTF-16 code
 * units, one `char` each.
 */
module WindowsFile {
  import opened Wrappers

  /** The Win32 long-path prefix `\\?\`. */
  const UNC_PREFIX: string := "\\\\?\\"

  /** `wstring::npos`, the largest 64-bit `size_t`. */
  const NPOS: int := 0xFFFF_FFFF_FFFF_FFFF

  const SIZE_T_MODULUS: int := 0x1_0000_0000_0000_0000

  /** Unsigned 64-bit `size_t` arithmetic wraps around. */
  function SizeT(x: int): int {
    x % SIZE_T_MODULUS
  }

  // ------------------------------------------------------------ path predicates

  /**
   * HasUncPrefix and IsDevNull are declared in a header outside this model;
   * they are parameters here.
   */
  datatype PathPredicates = PathPredicates(hasUncPrefix: string -> bool, isDevNull: string -> bool)

  /**
   * What the rest of the file relies on: a UNC-prefixed path has at least the
   * four prefix characters, and prepending the prefix yields a UNC path.
   */
  ghost predicate Valid(pp: PathPredicates) {
    && (forall p :: pp.hasUncPrefix(p) ==> |p| >= 4)
    && (forall p :: pp.hasUncPrefix(UNC_PREFIX + p))
  }

  function AddUncPrefixMaybe(pp: PathPredicates, path: string): (r: string)
    ensures r == path || r == UNC_PREFIX + path
    ensures pp.hasUncPrefix(path) ==> r == path
  {
    if path == [] || pp.isDevNull(path) || pp.hasUncPrefix(path) then path else UNC_PREFIX + path
  }

  function RemoveUncPrefixMaybe(pp: PathPredicates, path: string): (r: string)
    requires pp.hasUncPrefix(path) ==> |path| >= 4
    ensures pp.hasUncPrefix(path) ==> |r| == |path| - 4 && path == path[..4] + r
    ensures !pp.hasUncPrefix(path) ==> r == path
  {
    if pp.hasUncPrefix(path) then path[4..] else path
  }

  /** Adding the prefix gives a UNC path unless the path is empty or the null device. */
  lemma AddUncPrefixGivesUnc(pp: PathPredicates, path: string)
    requires Valid(pp)
    ensures path != [] && !pp.isDevNull(path) ==> pp.hasUncPrefix(AddUncPrefixMaybe(pp, path))
    ensures path == [] || pp.isDevNull(path) ==> AddUncPrefixMaybe(pp, path) == path
  {
  }

  /** Removing the prefix undoes adding it, for a path that had none. */
  lemma UncPrefixRoundTrip(pp: PathPredicates, path: string)
    requires Valid(pp)
    requires !pp.hasUncPrefix(path)
    ensures RemoveUncPrefixMaybe(pp, AddUncPrefixMaybe(pp, path)) == path
  {
    if path != [] && !pp.isDevNull(path) {
      assert (UNC_PREFIX + path)[4..] == path;
    }
  }

  /** Adding the prefix twice is adding it once. */
  lemma AddUncPrefixIdempotent(pp: PathPredicates, path: string)
    requires Valid(pp)
    ensures AddUncPrefixMaybe(pp, AddUncPrefixMaybe(pp, path)) == AddUncPrefixMaybe(pp, path)
  {
  }

  /** iswalpha, restricted to ASCII letters. */
  predicate IsAlpha(c: char) {
    'a' <= c <= 'z' || 'A' <= c <= 'Z'
  }

  /** A drive letter, a colon and a backslash, right after the UNC prefix if there is one. */
  predicate HasDriveSpecifierPrefix(pp: PathPredicates, p: string) {
    if pp.hasUncPrefix(p) then |p| >= 7 && IsAlpha(p[4]) && p[5] == ':' && p[6] == '\\'
    else |p| >= 3 && IsAlpha(p[0]) && p[1] == ':' && p[2] == '\\'
  }

  /** The drive specifier is looked for past the UNC prefix, so adding the prefix keeps it. */
  lemma DriveSpecifierSurvivesUncPrefix(pp: PathPredicates, p: string)
    requires Valid(pp)
    requires !pp.hasUncPrefix(p)
    ensures HasDriveSpecifierPrefix(pp, UNC_PREFIX + p) <==> HasDriveSpecifierPrefix(pp, p)
  {
    var q := UNC_PREFIX + p;
    if |p| >= 3 {
      assert q[4] == p[0] && q[5] == p[1] && q[6] == p[2];
    }
  }

  // ------------------------------------------------------------ substring search

  predicate OccursAt(s: string, pattern: string, i: int) {
    0 <= i && i + |pattern| <= |s| && s[i..i + |pattern|] == pattern
  }

  predicate Contains(s: string, pattern: string) {
    exists i | 0 <= i <= |s| :: OccursAt(s, pattern, i)
  }

  predicate StartsWith(s: string, prefix: string) {
    OccursAt(s, prefix, 0)
  }

  predicate EndsWith(s: string, suffix: string) {
    OccursAt(s, suffix, |s| - |suffix|)
  }

  function FindFrom(s: string, pattern: string, from: nat): (r: int)
    requires from <= |s| < NPOS
    ensures r == NPOS <==> forall i | from <= i :: !OccursAt(s, pattern, i)
    ensures r != NPOS ==> from <= r && OccursAt(s, pattern, r) && forall i | from <= i < r :: !OccursAt(s, pattern, i)
    decreases |s| - from
  {
    if from + |pattern| > |s| then NPOS
    else if OccursAt(s, pattern, from) then from
    else FindFrom(s, pattern, from + 1)
  }

  /** `wstring::find`: the first position of the pattern, or `npos`. */
  function Find(s: string, pattern: string): (r: int)
    requires |s| < NPOS
    ensures r == NPOS <==> !Contains(s, pattern)
    ensures r != NPOS ==> OccursAt(s, pattern, r) && forall i | 0 <= i < r :: !OccursAt(s, pattern, i)
  {
    FindFrom(s, pattern, 0)
  }

  // ------------------------------------------------------------ the path validator

  /**
   * IsAbsoluteNormalizedWindowsPath exactly as written: the tests for a
   * trailing `\.` and `\..` compare the position of the FIRST occurrence
   * with the end of the path.
   */
  predicate IsAbsoluteNormalizedWindowsPathAsWritten(pp: PathPredicates, p: string)
    requires |p| < NPOS
  {
    if p == [] then false
    else if pp.isDevNull(p) then true
    else if Find(p, "/") != NPOS then false
    else
      && HasDriveSpecifierPrefix(pp, p)
      && Find(p, ".\\") != 0
      && Find(p, "\\.\\") == NPOS
      && Find(p, "\\.") != SizeT(|p| - 2)
      && Find(p, "..\\") != 0
      && Find(p, "\\..\\") == NPOS
      && Find(p, "\\..") != SizeT(|p| - 3)
  }

  /**
   * An absolute, normalized Windows path: the null device, or a path with a
   * drive specifier, no forward slash, and no `.` or `..` segment at the
   * start, in the middle or at the end.
   */
  predicate IsAbsoluteNormalizedWindowsPath(pp: PathPredicates, p: string) {
    if p == [] then false
    else if pp.isDevNull(p) then true
    else if '/' in p then false
    else
      && HasDriveSpecifierPrefix(pp, p)
      && !StartsWith(p, ".\\")
      && !Contains(p, "\\.\\")
      && !EndsWith(p, "\\.")
      && !StartsWith(p, "..\\")
      && !Contains(p, "\\..\\")
      && !EndsWith(p, "\\..")
  }

  lemma SlashFound(p: string)
    requires |p| < NPOS
    ensures Find(p, "/") != NPOS <==> '/' in p
  {
    if '/' in p {
      var i :| 0 <= i < |p| && p[i] == '/';
      assert p[i..i + 1] == "/";
      assert OccursAt(p, "/", i);
    }
    forall i | OccursAt(p, "/", i) ensures '/' in p {
      assert p[i..i + 1] == "/";
      assert p[i] == p[i..i + 1][0];
    }
  }

  /** The first occurrence is at the end exactly when the pattern ends the string and occurs nowhere earlier. */
  lemma FirstAtEnd(p: string, pattern: string)
    requires |pattern| <= |p| < NPOS
    ensures Find(p, pattern) == SizeT(|p| - |pattern|)
        <==> EndsWith(p, pattern) && forall i | 0 <= i < |p| - |pattern| :: !OccursAt(p, pattern, i)
  {
    assert SizeT(|p| - |pattern|) == |p| - |pattern|;
    if EndsWith(p, pattern) && forall i | 0 <= i < |p| - |pattern| :: !OccursAt(p, pattern, i) {
      assert Contains(p, pattern);
    }
  }

  /**
   * The validator as written accepts every path the corrected one accepts;
   * the two differ only on paths ending in `\.` or `\..`.
   */
  lemma CorrectedValidatorIsStricter(pp: PathPredicates, p: string)
    requires |p| < NPOS
    ensures IsAbsoluteNormalizedWindowsPath(pp, p) ==> IsAbsoluteNormalizedWindowsPathAsWritten(pp, p)
    ensures IsAbsoluteNormalizedWindowsPathAsWritten(pp, p) && !EndsWith(p, "\\.") && !EndsWith(p, "\\..")
        ==> IsAbsoluteNormalizedWindowsPath(pp, p)
  {
    if p != [] && !pp.isDevNull(p) {
      SlashFound(p);
      if HasDriveSpecifierPrefix(pp, p) {
        FirstAtEnd(p, "\\.");
        FirstAtEnd(p, "\\..");
        assert Find(p, ".\\") == 0 <==> StartsWith(p, ".\\");
        assert Find(p, "..\\") == 0 <==> StartsWith(p, "..\\");
      }
    }
  }

  /** One mismatching character rules an occurrence out. */
  lemma Mismatch(s: string, pattern: string, i: int, k: int)
    requires 0 <= k < |pattern| && 0 <= i + k < |s|
    requires s[i + k] != pattern[k]
    ensures !OccursAt(s, pattern, i)
  {
    if 0 <= i && i + |pattern| <= |s| {
      assert s[i..i + |pattern|][k] == s[i + k];
    }
  }

  /** A path whose last segment is `.`, with an earlier `\.` inside a segment name. */
  const TRAILING_DOT_PATH: string := "C:\\a\\.b\\."

  lemma TrailingDotPathChars()
    ensures |TRAILING_DOT_PATH| == 9
    ensures forall k | 0 <= k < 9 :: TRAILING_DOT_PATH[k] == (if k == 2 || k == 4 || k == 7 then '\\' else if k == 5 || k == 8 then '.' else if k == 0 then 'C' else if k == 1 then ':' else if k == 3 then 'a' else 'b')
  {
  }

  /**
   * A pattern that starts with `\.` and has a third character other than
   * `b` occurs in the path only from position 7 on, and `\\.` itself not before 4.
   */
  lemma TrailingDotPathOccurrence(pattern: string, i: int)
    requires |pattern| >= 2 && pattern[0] == '\\' && pattern[1] == '.'
    requires 0 <= i < 7
    requires |pattern| >= 3 ==> pattern[2] != 'b'
    requires |pattern| == 2 ==> i < 4
    ensures !OccursAt(TRAILING_DOT_PATH, pattern, i)
  {
    var p := TRAILING_DOT_PATH;
    TrailingDotPathChars();
    if i == 2 {
      Mismatch(p, pattern, i, 1);
    } else if i == 4 {
      Mismatch(p, pattern, i, 2);
    } else {
      Mismatch(p, pattern, i, 0);
    }
  }

  /** The first `\.` is the one inside `.b`, not the trailing one. */
  lemma TrailingDotPathFirstBackslashDot()
    ensures Find(TRAILING_DOT_PATH, "\\.") == 4
  {
    var p := TRAILING_DOT_PATH;
    TrailingDotPathChars();
    forall i | 0 <= i < 4 ensures !OccursAt(p, "\\.", i) {
      TrailingDotPathOccurrence("\\.", i);
    }
    assert p[4..6] == "\\.";
  }

  lemma TrailingDotPathHasNoDotSegmentInside()
    ensures !Contains(TRAILING_DOT_PATH, "\\.\\")
    ensures !Contains(TRAILING_DOT_PATH, "\\..\\")
    ensures !Contains(TRAILING_DOT_PATH, "\\..")
  {
    forall i | 0 <= i < 7 ensures !OccursAt(TRAILING_DOT_PATH, "\\.\\", i) {
      TrailingDotPathOccurrence("\\.\\", i);
    }
    forall i | 0 <= i < 7 ensures !OccursAt(TRAILING_DOT_PATH, "\\..", i) {
      TrailingDotPathOccurrence("\\..", i);
    }
    forall i | 0 <= i < 7 ensures !OccursAt(TRAILING_DOT_PATH, "\\..\\", i) {
      TrailingDotPathOccurrence("\\..\\", i);
    }
  }

  lemma TrailingDotPathHasNoSlash()
    ensures '/' !in TRAILING_DOT_PATH
  {
    TrailingDotPathChars();
  }

  /** `C:\a\.b\.` ends in a `.` segment, yet the validator as written accepts it. */
  lemma AsWrittenAcceptsTrailingDot(pp: PathPredicates)
    requires !pp.isDevNull(TRAILING_DOT_PATH) && !pp.hasUncPrefix(TRAILING_DOT_PATH)
    ensures IsAbsoluteNormalizedWindowsPathAsWritten(pp, TRAILING_DOT_PATH)
    ensures !IsAbsoluteNormalizedWindowsPath(pp, TRAILING_DOT_PATH)
  {
    AsWrittenPassesEveryTest(pp);
    TrailingDotPathEndsInDot(pp);
  }

  lemma AsWrittenPassesEveryTest(pp: PathPredicates)
    requires !pp.isDevNull(TRAILING_DOT_PATH) && !pp.hasUncPrefix(TRAILING_DOT_PATH)
    ensures IsAbsoluteNormalizedWindowsPathAsWritten(pp, TRAILING_DOT_PATH)
  {
    var p := TRAILING_DOT_PATH;
    TrailingDotPathHasNoSlash();
    TrailingDotPathFirstBackslashDot();
    TrailingDotPathHasNoDotSegmentInside();
    assert |p| == 9 && p[0] == 'C' && p[1] == ':' && p[2] == '\\';
    AsWrittenAcceptsWhen(pp, p);
  }

  /** The tests the validator as written makes, each stated on its own. */
  lemma AsWrittenAcceptsWhen(pp: PathPredicates, p: string)
    requires |p| < NPOS && !pp.isDevNull(p) && !pp.hasUncPrefix(p)
    requires '/' !in p && |p| >= 3 && IsAlpha(p[0]) && p[1] == ':' && p[2] == '\\'
    requires !Contains(p, "\\.\\") && !Contains(p, "\\..\\") && !Contains(p, "\\..")
    requires Find(p, "\\.") != SizeT(|p| - 2)
    ensures IsAbsoluteNormalizedWindowsPathAsWritten(pp, p)
  {
    SlashFound(p);
    assert !OccursAt(p, ".\\", 0) && !OccursAt(p, "..\\", 0);
  }

  lemma TrailingDotPathEndsInDot(pp: PathPredicates)
    requires !pp.isDevNull(TRAILING_DOT_PATH)
    ensures !IsAbsoluteNormalizedWindowsPath(pp, TRAILING_DOT_PATH)
  {
    TrailingDotPathChars();
    assert TRAILING_DOT_PATH[7..9] == "\\.";
  }

  // ------------------------------------------------------------ guards before OS calls

  datatype PathOperation = IsSymlinkOrJunction | GetLongPath | ReadSymlinkOrJunction | DeletePath

  /** Either the error returned before any OS call, or the path the OS call receives. */
  datatype Step = Reject(message: string) | CallOs(osPath: string)

  /**
   * The argument check every path operation starts with, made by the
   * validator as written. Only IsSymlinkOrJunction hands the path on as
   * given; the others add the UNC prefix first.
   */
  function PathGuard(pp: PathPredicates, op: PathOperation, path: string): (r: Step)
    requires Valid(pp)
    requires |path| < NPOS
    ensures r.Reject? <==> !IsAbsoluteNormalizedWindowsPathAsWritten(pp, path)
    ensures IsAbsoluteNormalizedWindowsPath(pp, path) ==> r.CallOs?
    ensures r.Reject? ==> r.message == (if op == ReadSymlinkOrJunction
                                         then "expected an absolute Windows path for 'path'"
                                         else "expected an absolute Windows path")
    ensures r.CallOs? && op == IsSymlinkOrJunction ==> r.osPath == path
    ensures r.CallOs? && op != IsSymlinkOrJunction ==> pp.hasUncPrefix(r.osPath) || pp.isDevNull(r.osPath)
    ensures r.CallOs? && op != IsSymlinkOrJunction && !pp.hasUncPrefix(path) ==>
      RemoveUncPrefixMaybe(pp, r.osPath) == path
  {
    CorrectedValidatorIsStricter(pp, path);
    if !IsAbsoluteNormalizedWindowsPathAsWritten(pp, path) then
      Reject(if op == ReadSymlinkOrJunction then "expected an absolute Windows path for 'path'"
             else "expected an absolute Windows path")
    else if op == IsSymlinkOrJunction then CallOs(path)
    else
      var osPath := AddUncPrefixMaybe(pp, path);
      assert !pp.hasUncPrefix(path) ==> RemoveUncPrefixMaybe(pp, osPath) == path by {
        if !pp.hasUncPrefix(path) {
          UncPrefixRoundTrip(pp, path);
        }
      }
      CallOs(osPath)
  }

  // ------------------------------------------------------------ junction creation

  /** MAXIMUM_REPARSE_DATA_BUFFER_SIZE, in bytes. */
  const MAXIMUM_REPARSE_DATA_BUFFER_SIZE: int := 16 * 1024
  /** offsetof(REPARSE_DATA_BUFFER, MountPointReparseBuffer.PathBuffer): an 8-byte header and four USHORTs. */
  const PATH_BUFFER_OFFSET: int := 16
  /** offsetof(REPARSE_DATA_BUFFER, GenericReparseBuffer.DataBuffer). */
  const GENERIC_DATA_OFFSET: int := 8
  const WCHAR_SIZE: int := 2
  const USHORT_SIZE: int := 2
  const IO_REPARSE_TAG_MOUNT_POINT: int := 0xA000_0003
  /** The `\??\` prefix the kernel expects in front of a junction target. */
  const NT_PREFIX: string := "\\??\\"

  const MAX_JUNCTION_TARGET_LEN: int :=
    ((MAXIMUM_REPARSE_DATA_BUFFER_SIZE - PATH_BUFFER_OFFSET) / WCHAR_SIZE - 4 - 2) / 2

  /** The number of WCHARs after PathBuffer's start. */
  const PATH_BUFFER_CHARS: int := (MAXIMUM_REPARSE_DATA_BUFFER_SIZE - PATH_BUFFER_OFFSET) / WCHAR_SIZE

  /** Assigning to a USHORT field keeps the low 16 bits. */
  function UShort(x: int): int {
    x % 0x1_0000
  }

  /** The bytes a mount-point record for an n-character target occupies. */
  function JunctionRecordBytes(n: nat): int {
    PATH_BUFFER_OFFSET + (4 + n) * WCHAR_SIZE + WCHAR_SIZE + n * WCHAR_SIZE + WCHAR_SIZE
  }

  /**
   * The target-length limit is exact: a target fits the reparse buffer, with
   * both copies and both terminators, exactly when it is within the limit,
   * and no length field of a fitting record is truncated.
   */
  lemma JunctionLimitIsExact(n: nat)
    ensures MAX_JUNCTION_TARGET_LEN == 4089
    ensures n <= MAX_JUNCTION_TARGET_LEN <==> JunctionRecordBytes(n) <= MAXIMUM_REPARSE_DATA_BUFFER_SIZE
    ensures n <= MAX_JUNCTION_TARGET_LEN ==>
      && UShort((4 + n) * WCHAR_SIZE) == (4 + n) * WCHAR_SIZE
      && UShort((4 + n) * WCHAR_SIZE + WCHAR_SIZE) == (4 + n) * WCHAR_SIZE + WCHAR_SIZE
      && UShort(n * WCHAR_SIZE) == n * WCHAR_SIZE
      && UShort(4 * USHORT_SIZE + (4 + n) * WCHAR_SIZE + n * WCHAR_SIZE + 2 * WCHAR_SIZE)
         == 4 * USHORT_SIZE + (4 + n) * WCHAR_SIZE + n * WCHAR_SIZE + 2 * WCHAR_SIZE
  {
  }

  datatype JunctionStep =
    | JunctionReject(message: string)
    | TargetNameTooLong
    | CreateAt(name: string, target: string)

  /**
   * The checks CreateJunction makes before touching the file system, with
   * the validator as written: both paths must pass it, the target without
   * its UNC prefix must fit the reparse buffer, and the junction itself is
   * created under its UNC-prefixed name.
   */
  function CreateJunctionGuard(pp: PathPredicates, junctionName: string, junctionTarget: string): (r: JunctionStep)
    requires Valid(pp)
    requires |junctionName| < NPOS && |junctionTarget| < NPOS
    ensures r.JunctionReject? <==>
      || !IsAbsoluteNormalizedWindowsPathAsWritten(pp, junctionName)
      || !IsAbsoluteNormalizedWindowsPathAsWritten(pp, junctionTarget)
    ensures r.JunctionReject? && !IsAbsoluteNormalizedWindowsPathAsWritten(pp, junctionName) ==>
      r.message == "expected an absolute Windows path for junction_name"
    ensures r.JunctionReject? && IsAbsoluteNormalizedWindowsPathAsWritten(pp, junctionName) ==>
      r.message == "expected an absolute Windows path for junction_target"
    ensures IsAbsoluteNormalizedWindowsPath(pp, junctionName) && IsAbsoluteNormalizedWindowsPath(pp, junctionTarget)
      ==> !r.JunctionReject?
    ensures r.TargetNameTooLong? <==>
      && IsAbsoluteNormalizedWindowsPathAsWritten(pp, junctionName)
      && IsAbsoluteNormalizedWindowsPathAsWritten(pp, junctionTarget)
      && JunctionRecordBytes(|RemoveUncPrefixMaybe(pp, junctionTarget)|) > MAXIMUM_REPARSE_DATA_BUFFER_SIZE
    ensures r.CreateAt? ==>
      && r.target == RemoveUncPrefixMaybe(pp, junctionTarget)
      && JunctionRecordBytes(|r.target|) <= MAXIMUM_REPARSE_DATA_BUFFER_SIZE
      && pp.hasUncPrefix(r.name)
      && (!pp.hasUncPrefix(junctionName) ==> RemoveUncPrefixMaybe(pp, r.name) == junctionName)
  {
    CorrectedValidatorIsStricter(pp, junctionName);
    CorrectedValidatorIsStricter(pp, junctionTarget);
    if !IsAbsoluteNormalizedWindowsPathAsWritten(pp, junctionName) then
      JunctionReject("expected an absolute Windows path for junction_name")
    else if !IsAbsoluteNormalizedWindowsPathAsWritten(pp, junctionTarget) then
      JunctionReject("expected an absolute Windows path for junction_target")
    else
      var target := RemoveUncPrefixMaybe(pp, junctionTarget);
      JunctionLimitIsExact(|target|);
      if |target| > MAX_JUNCTION_TARGET_LEN then TargetNameTooLong
      else
        var name := if pp.hasUncPrefix(junctionName) then junctionName else UNC_PREFIX + junctionName;
        assert !pp.hasUncPrefix(junctionName) ==> name[4..] == junctionName;
        CreateAt(name, target)
  }

  /**
   * Because the guards use the validator as written, a path whose last
   * segment is `.` reaches the OS call, and CreateJunction goes on to the
   * length check with it as its target.
   */
  lemma GuardsLetTrailingDotThrough(pp: PathPredicates, op: PathOperation, name: string)
    requires Valid(pp)
    requires !pp.isDevNull(TRAILING_DOT_PATH) && !pp.hasUncPrefix(TRAILING_DOT_PATH)
    requires |name| < NPOS && IsAbsoluteNormalizedWindowsPath(pp, name)
    ensures PathGuard(pp, op, TRAILING_DOT_PATH).CallOs?
    ensures !CreateJunctionGuard(pp, name, TRAILING_DOT_PATH).JunctionReject?
  {
    AsWrittenAcceptsTrailingDot(pp);
    CorrectedValidatorIsStricter(pp, name);
  }

  /** `s` with the characters from position `at` on replaced by `src`. */
  function Splice(s: string, at: nat, src: string): (r: string)
    requires at + |src| <= |s|
    ensures |r| == |s|
    ensures forall j | 0 <= j < |s| :: r[j] == if at <= j < at + |src| then src[j - at] else s[j]
  {
    s[..at] + src + s[at + |src|..]
  }

  method CopyInto(a: array<char>, at: nat, src: string)
    requires at + |src| <= a.Length
    modifies a
    ensures a[..] == Splice(old(a[..]), at, src)
  {
    for k := 0 to |src|
      invariant forall j | 0 <= j < a.Length :: a[j] == if at <= j < at + k then src[j - at] else old(a[j])
    {
      a[at + k] := src[k];
    }
  }

  /**
   * The REPARSE_DATA_BUFFER of a mount point. Lengths and offsets are in
   * bytes, as in the record; the path buffer is counted in WCHARs.
   */
  class ReparseDataBuffer {
    var reparseTag: int
    var reparseDataLength: int
    var reserved: int
    var substituteNameOffset: int
    var substituteNameLength: int
    var printNameOffset: int
    var printNameLength: int
    const pathBuffer: array<char>

    constructor ()
      ensures pathBuffer.Length == PATH_BUFFER_CHARS && fresh(pathBuffer)
    {
      pathBuffer := new char[PATH_BUFFER_CHARS];
    }

    /** The substitute name, as ReadSymlinkOrJunction extracts it from a mount point. */
    function SubstituteName(): string
      reads this, pathBuffer
      requires 0 <= substituteNameOffset / WCHAR_SIZE
      requires 0 <= substituteNameLength
      requires substituteNameOffset / WCHAR_SIZE + substituteNameLength / WCHAR_SIZE <= pathBuffer.Length
    {
      pathBuffer[substituteNameOffset / WCHAR_SIZE .. substituteNameOffset / WCHAR_SIZE + substituteNameLength / WCHAR_SIZE]
    }

    /** The display name of the junction. */
    function PrintName(): string
      reads this, pathBuffer
      requires 0 <= printNameOffset / WCHAR_SIZE
      requires 0 <= printNameLength
      requires printNameOffset / WCHAR_SIZE + printNameLength / WCHAR_SIZE <= pathBuffer.Length
    {
      pathBuffer[printNameOffset / WCHAR_SIZE .. printNameOffset / WCHAR_SIZE + printNameLength / WCHAR_SIZE]
    }

    /**
     * Turning a new directory into a junction: the buffer is zeroed, the
     * length fields are set for the target, and the path buffer receives the
     * `\??\`-prefixed target, a terminator, the target again and a terminator.
     */
    method FillMountPoint(target: string)
      requires |target| <= MAX_JUNCTION_TARGET_LEN
      requires pathBuffer.Length == PATH_BUFFER_CHARS
      modifies this, pathBuffer
      ensures reparseTag == IO_REPARSE_TAG_MOUNT_POINT && reserved == 0
      ensures substituteNameOffset == 0 && substituteNameLength == (4 + |target|) * WCHAR_SIZE
      ensures printNameOffset == substituteNameLength + WCHAR_SIZE && printNameLength == |target| * WCHAR_SIZE
      ensures reparseDataLength == 4 * USHORT_SIZE + substituteNameLength + printNameLength + 2 * WCHAR_SIZE
      ensures reparseDataLength + GENERIC_DATA_OFFSET == JunctionRecordBytes(|target|) <= MAXIMUM_REPARSE_DATA_BUFFER_SIZE
      ensures pathBuffer[..2 * |target| + 6] == NT_PREFIX + target + ['\0'] + target + ['\0']
      ensures SubstituteName() == NT_PREFIX + target
      ensures PrintName() == target
    {
      var n := |target|;
      ZeroFill(pathBuffer);
      SetMountPointHeader(n);
      MountPointLayout(n);
      WriteMountPointNames(pathBuffer, target);
      NamesInBuffer(pathBuffer[..], target);
    }

    /** The header fields of a mount-point record for an n-character target. */
    method SetMountPointHeader(n: nat)
      requires n <= MAX_JUNCTION_TARGET_LEN
      modifies this
      ensures reparseTag == IO_REPARSE_TAG_MOUNT_POINT && reserved == 0
      ensures substituteNameOffset == 0 && substituteNameLength == (4 + n) * WCHAR_SIZE
      ensures printNameOffset == substituteNameLength + WCHAR_SIZE && printNameLength == n * WCHAR_SIZE
      ensures reparseDataLength == 4 * USHORT_SIZE + substituteNameLength + printNameLength + 2 * WCHAR_SIZE
      ensures substituteNameLength / WCHAR_SIZE == 4 + n && printNameOffset / WCHAR_SIZE == n + 5
      ensures printNameLength / WCHAR_SIZE == n
    {
      MountPointLayout(n);
      substituteNameOffset := 0;
      substituteNameLength := UShort((4 + n) * WCHAR_SIZE);
      printNameOffset := UShort(substituteNameLength + WCHAR_SIZE);
      printNameLength := UShort(n * WCHAR_SIZE);
      reparseTag := IO_REPARSE_TAG_MOUNT_POINT;
      reparseDataLength := UShort(4 * USHORT_SIZE + substituteNameLength + printNameLength + 2 * WCHAR_SIZE);
      reserved := 0;
    }
  }

  /** The field values FillMountPoint computes for an n-character target, none of them truncated. */
  lemma MountPointLayout(n: nat)
    requires n <= MAX_JUNCTION_TARGET_LEN
    ensures var sub := UShort((4 + n) * WCHAR_SIZE);
      var printLength := UShort(n * WCHAR_SIZE);
      var printOffset := UShort(sub + WCHAR_SIZE);
      var dataLength := 4 * USHORT_SIZE + sub + printLength + 2 * WCHAR_SIZE;
      && sub == (4 + n) * WCHAR_SIZE && sub / WCHAR_SIZE == 4 + n
      && printLength == n * WCHAR_SIZE && printLength / WCHAR_SIZE == n
      && printOffset == sub + WCHAR_SIZE && printOffset / WCHAR_SIZE == n + 5
      && UShort(dataLength) == dataLength
      && dataLength + GENERIC_DATA_OFFSET == JunctionRecordBytes(n) <= MAXIMUM_REPARSE_DATA_BUFFER_SIZE
      && 2 * n + 6 <= PATH_BUFFER_CHARS
  {
    JunctionLimitIsExact(n);
  }

  /** The two names sit at the start of the written region and after the first terminator. */
  lemma NamesInBuffer(buf: seq<char>, target: string)
    requires 2 * |target| + 6 <= |buf|
    requires buf[..2 * |target| + 6] == NT_PREFIX + target + ['\0'] + target + ['\0']
    ensures buf[0..4 + |target|] == NT_PREFIX + target
    ensures buf[|target| + 5..2 * |target| + 5] == target
  {
    var n := |target|;
    assert buf[..4 + n] == buf[..2 * n + 6][..4 + n];
    assert buf[n + 5..2 * n + 5] == buf[..2 * n + 6][n + 5..2 * n + 5];
  }

  /** Sets every element of the buffer to NUL. */
  method ZeroFill(a: array<char>)
    modifies a
    ensures forall j | 0 <= j < a.Length :: a[j] == '\0'
  {
    for k := 0 to a.Length
      invariant forall j | 0 <= j < k :: a[j] == '\0'
    {
      a[k] := '\0';
    }
  }

  /**
   * Writes the `\??\`-prefixed target and the bare target into a zeroed
   * path buffer, so each is followed by a NUL terminator.
   */
  method WriteMountPointNames(a: array<char>, target: string)
    requires 2 * |target| + 6 <= a.Length
    requires forall j | 0 <= j < a.Length :: a[j] == '\0'
    modifies a
    ensures a[..2 * |target| + 6] == NT_PREFIX + target + ['\0'] + target + ['\0']
  {
    var n := |target|;
    ghost var zeroed := a[..];
    CopyInto(a, 0, NT_PREFIX);
    CopyInto(a, 4, target);
    CopyInto(a, n + 5, target);
    MountPointNamesSpliced(zeroed, target);
  }

  lemma MountPointNamesSpliced(zeroed: string, target: string)
    requires 2 * |target| + 6 <= |zeroed|
    requires forall j | 0 <= j < |zeroed| :: zeroed[j] == '\0'
    ensures var n := |target|;
      Splice(Splice(Splice(zeroed, 0, NT_PREFIX), 4, target), n + 5, target)[..2 * n + 6]
        == NT_PREFIX + target + ['\0'] + target + ['\0']
  {
    var n := |target|;
    var r := Splice(Splice(Splice(zeroed, 0, NT_PREFIX), 4, target), n + 5, target);
    var want := NT_PREFIX + target + ['\0'] + target + ['\0'];
    forall j | 0 <= j < 2 * n + 6 ensures r[j] == want[j] {
    }
  }


  // ------------------------------------------------------------ hex formatting

  const HEX_DIGITS: string := "0123456789abcdef"

  /** The n low hexadecimal digits of v, most significant first. */
  function LowDigits(v: nat, n: nat): (r: string)
    ensures |r| == n
    ensures forall i | 0 <= i < n :: r[i] in HEX_DIGITS
  {
    if n == 0 then [] else LowDigits(v / 16, n - 1) + [HEX_DIGITS[v % 16]]
  }

  function DigitValue(c: char): nat {
    if '0' <= c <= '9' then c as int - '0' as int
    else if 'a' <= c <= 'f' then c as int - 'a' as int + 10
    else 0
  }

  /** Reads a string of hexadecimal digits, most significant first. */
  function HexValue(s: string): nat {
    if s == [] then 0 else 16 * HexValue(s[..|s| - 1]) + DigitValue(s[|s| - 1])
  }

  function Pow16(n: nat): (r: nat)
    ensures r > 0
  {
    if n == 0 then 1 else 16 * Pow16(n - 1)
  }

  lemma DigitValueOfHexDigit(k: nat)
    requires k < 16
    ensures DigitValue(HEX_DIGITS[k]) == k
  {
  }

  lemma MulAwayFromZero(m: int, k: int)
    requires m > 0
    ensures k >= 1 ==> m * k >= m
    ensures k <= -1 ==> m * k <= -m
  {
    if k >= 1 {
      assert m * k == m * (k - 1) + m;
      assert m * (k - 1) >= 0;
    } else if k <= -1 {
      assert m * k == m * (k + 1) - m;
      assert m * (k + 1) <= 0;
    }
  }

  lemma ModUnique(v: nat, m: int, a: int, x: int)
    requires m > 0 && 0 <= x < m && v == m * a + x
    ensures v % m == x
  {
    var q := v / m;
    assert v == m * q + v % m;
    assert m * (a - q) == m * a - m * q;
    MulAwayFromZero(m, a - q);
  }

  lemma ModOfSplit(v: nat, m: nat)
    requires m > 0
    ensures 16 * ((v / 16) % m) + v % 16 == v % (16 * m)
  {
    var q, r := v / 16, v % 16;
    var a, b := q / m, q % m;
    assert v == 16 * q + r;
    assert q == m * a + b;
    assert v == (16 * m) * a + (16 * b + r);
    assert 0 <= 16 * b + r < 16 * m;
    ModUnique(v, 16 * m, a, 16 * b + r);
  }

  /** Reading the n low digits back gives v modulo 16^n. */
  lemma {:induction false} LowDigitsRoundTrip(v: nat, n: nat)
    ensures HexValue(LowDigits(v, n)) == v % Pow16(n)
  {
    if n > 0 {
      var s := LowDigits(v, n);
      assert s[..|s| - 1] == LowDigits(v / 16, n - 1);
      LowDigitsRoundTrip(v / 16, n - 1);
      DigitValueOfHexDigit(v % 16);
      ModOfSplit(v, Pow16(n - 1));
    }
  }

  /**
   * uint32asHexString: fills an eight-character buffer from the last position
   * backwards with the low hexadecimal digit, shifting the value right by four
   * bits each time.
   */
  method Uint32AsHexString(value: int) returns (s: string)
    requires 0 <= value < 0x1_0000_0000
    ensures s == LowDigits(value, 8)
    ensures |s| == 8 && (forall i | 0 <= i < 8 :: s[i] in HEX_DIGITS) && HexValue(s) == value
  {
    var attr := new char[8];
    var v := value;
    for i := 0 to 8
      invariant v >= 0
      invariant LowDigits(v, 8 - i) + attr[8 - i..] == LowDigits(value, 8)
    {
      ghost var tail := attr[8 - i..];
      attr[7 - i] := HEX_DIGITS[v % 16];
      assert attr[7 - i..] == [HEX_DIGITS[v % 16]] + tail;
      LowDigitsStep(v, 8 - i, tail, LowDigits(value, 8));
      v := v / 16;
    }
    s := attr[..];
    EightDigitsRoundTrip(value);
  }

  /** Emitting the lowest digit moves it from the digits still to come to the written tail. */
  lemma LowDigitsStep(v: nat, k: nat, tail: string, digits: string)
    requires k >= 1 && LowDigits(v, k) + tail == digits
    ensures LowDigits(v / 16, k - 1) + ([HEX_DIGITS[v % 16]] + tail) == digits
  {
    assert LowDigits(v, k) == LowDigits(v / 16, k - 1) + [HEX_DIGITS[v % 16]];
  }

  /** Eight hexadecimal digits hold any 32-bit value exactly. */
  lemma EightDigitsRoundTrip(value: int)
    requires 0 <= value < 0x1_0000_0000
    ensures HexValue(LowDigits(value, 8)) == value
  {
    Pow16Eight();
    LowDigitsRoundTrip(value, 8);
    ModUnique(value, 0x1_0000_0000, 0, value);
  }

  lemma Pow16Eight()
    ensures Pow16(8) == 0x1_0000_0000
  {
    assert Pow16(2) == 0x100;
    assert Pow16(4) == 0x1_0000 by {
      assert Pow16(3) == 16 * Pow16(2);
    }
    assert Pow16(6) == 0x100_0000 by {
      assert Pow16(5) == 16 * Pow16(4);
    }
    assert Pow16(7) == 16 * Pow16(6);
  }

  // ------------------------------------------------------------ directory status

  const ERROR_FILE_NOT_FOUND: int := 2
  const ERROR_ACCESS_DENIED: int := 5

  /**
   * What reading one child's attributes gave: attributes other than
   * INVALID_FILE_ATTRIBUTES, or the error code of the failed read.
   */
  datatype Probe = Attributes | ProbeFailed(errorCode: int)

  datatype DirEntry = DirEntry(name: string, probe: Probe)

  datatype DirectoryStatus = DoesNotExist | DirectoryEmpty | DirectoryNotEmpty | ChildMarkedForDeletionExists
  {
    function Code(): int {
      match this
      case DoesNotExist => 0
      case DirectoryEmpty => 1
      case DirectoryNotEmpty => 2
      case ChildMarkedForDeletionExists => 3
    }
  }

  predicate IsChild(e: DirEntry) {
    e.name != "." && e.name != ".."
  }

  /** A child that exists, or that cannot be probed for a reason other than pending deletion or absence. */
  predicate ShowsValidFile(e: DirEntry) {
    && IsChild(e)
    && (e.probe.Attributes?
        || (e.probe.errorCode != ERROR_ACCESS_DENIED && e.probe.errorCode != ERROR_FILE_NOT_FOUND))
  }

  /** A child whose probe is denied because it is being deleted. */
  predicate ShowsPendingDeletion(e: DirEntry) {
    IsChild(e) && e.probe.ProbeFailed? && e.probe.errorCode == ERROR_ACCESS_DENIED
  }

  /** The status a directory listing implies, stated over the whole listing. */
  function Classify(entries: seq<DirEntry>): DirectoryStatus {
    if exists i | 0 <= i < |entries| :: ShowsValidFile(entries[i]) then DirectoryNotEmpty
    else if exists i | 0 <= i < |entries| :: ShowsPendingDeletion(entries[i]) then ChildMarkedForDeletionExists
    else DirectoryEmpty
  }

  /**
   * CheckDirectoryStatus over the entries the directory enumeration returns
   * (None when the enumeration cannot start): the loop stops at the first
   * valid child, remembers children marked for deletion and ignores those
   * already gone.
   */
  method CheckDirectoryStatus(listing: Option<seq<DirEntry>>) returns (r: DirectoryStatus)
    ensures r == if listing.None? then DoesNotExist else Classify(listing.value)
  {
    if listing.None? {
      return DoesNotExist;
    }
    var entries := listing.value;
    var foundValidFile := false;
    var foundChildMarkedForDeletion := false;
    var i := 0;
    while i < |entries|
      invariant 0 <= i <= |entries|
      invariant !foundValidFile
      invariant forall j | 0 <= j < i :: !ShowsValidFile(entries[j])
      invariant foundChildMarkedForDeletion <==> exists j | 0 <= j < i :: ShowsPendingDeletion(entries[j])
    {
      var e := entries[i];
      if e.name != "." && e.name != ".." {
        if e.probe.Attributes? {
          foundValidFile := true;
          break;
        } else {
          var errorCode := e.probe.errorCode;
          if errorCode != ERROR_ACCESS_DENIED && errorCode != ERROR_FILE_NOT_FOUND {
            foundValidFile := true;
            break;
          } else if errorCode == ERROR_ACCESS_DENIED {
            foundChildMarkedForDeletion := true;
          }
        }
      }
      i := i + 1;
    }
    if foundValidFile {
      return DirectoryNotEmpty;
    }
    if foundChildMarkedForDeletion {
      return ChildMarkedForDeletionExists;
    }
    return DirectoryEmpty;
  }
}
