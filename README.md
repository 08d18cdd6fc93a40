# Build options, Starlark transition validation and Windows path helpers

A Dafny model of three independent pieces of Bazel:

- **Build options** (module `Config`, `build_options.dfy`). A configuration maps each fragment kind to a fragment, and each fragment maps field names to values, where a value may be null. A configuration also maps Starlark setting labels to values. The module models:
  - structural equality;
  - `BuildOptions.diff` and its result;
  - `diffForReconstruction`;
  - `applyDiff`, with its different-base error and its identity short-circuit;
  - `applyParsingResult`;
  - `matches` against a parsing result.

  A `BuildOptions` object is a class around an immutable value. This lets `applyDiff` return the very object it was called on.
- **Starlark transition validation** (module `StarlarkTransitions`, `starlark_transition.dfy`). The module models:
  - a transition tree of identity, native, Starlark and composed nodes;
  - the mutable event buffer each Starlark definition owns;
  - `replayOn` and `replayEvents`, which replay buffered events and stop at the first leaf with errors;
  - the changed-setting collection and the build-setting lookup;
  - the type check of every output configuration;
  - `getBuildSettingPackageKeys`;
  - `equals`.
- **Windows file helpers** (module `WindowsFile`, `windows_file.dfy`). The module models:
  - UNC-prefix add and remove;
  - the drive-letter check;
  - the absolute-normalized-path validator, as written and corrected;
  - the path guard every file operation starts with;
  - the fixed-width hexadecimal formatter;
  - the child classification loop of `CheckDirectoryStatus`;
  - the checks and length arithmetic of `CreateJunction`, including the filling of the reparse buffer.

Two support modules complete the project:
- `Wrappers` (`wrappers.dfy`) provides `Option`, `Result` and `Outcome`.
- `Labels` (`labels.dfy`) covers absolute labels in the explicit `//pkg:name` and `@repo//pkg:name` forms. Parsing and printing them are proved inverse.

Visit order of a composed transition: the composing transition's `visit` is not part of this model. It is taken to visit the first part, then the second.

Where the code and the behaviour described for it disagree, the model follows the code:
- `replayEvents` fails with the message "Errors encountered while applying Starlark transition" (StarlarkTransition.java:206-207).
- The setting-to-type map is filled with `put`, so a setting declared twice keeps its last type. Both declarations resolve through the same lookup, so both give the same type.
- The path guards in front of the Windows file operations call the path validator as written, including its defect on a trailing `.` segment (see "## Findings"). The corrected validator is modelled beside it and proved stricter.

## Model

| member | source | states |
|---|---|---|
| Config.EqualityIsFieldwise | src/test/java/com/google/devtools/build/lib/analysis/config/BuildOptionsTest.java:72-93 | Two configurations are equal exactly when they have the same fragment kinds, the same value for every field and the same Starlark options. |
| Config.Compare | src/test/java/com/google/devtools/build/lib/analysis/config/BuildOptionsTest.java:96-127 | In the diff, the first and second value maps have the same keys, and so do the two Starlark difference maps. Every reported field or Starlark option has differing values on the two sides. |
| Config.DifferingFields | src/test/java/com/google/devtools/build/lib/analysis/config/BuildOptionsTest.java:96-110 | For a kind present on both sides, a field is reported exactly when its values differ. |
| Config.DiffAreSameIffEqual | src/test/java/com/google/devtools/build/lib/analysis/config/BuildOptionsTest.java:96-127 | `areSame()` holds exactly when the two configurations are equal. |
| Config.DiffSymmetric | src/test/java/com/google/devtools/build/lib/analysis/config/BuildOptionsTest.java:113-127 | Swapping the arguments swaps first and second values, one-sided fragment kinds and one-sided Starlark keys, and keeps `areSame()`. |
| Config.Diff | src/test/java/com/google/devtools/build/lib/analysis/config/BuildOptionsTest.java:129-136 | A null argument fails with "Cannot diff null BuildOptions", and only a null argument fails. Otherwise the result is the comparison of the two values. |
| Config.ReconstructionDiffEmptyIffEqual | src/test/java/com/google/devtools/build/lib/analysis/config/BuildOptionsTest.java:165-173 | The reconstruction diff `DiffForReconstruction(base, target)` is empty exactly when base and target are equal. |
| Config.ReconstructRoundTrip | src/test/java/com/google/devtools/build/lib/analysis/config/BuildOptionsTest.java:175-189 | Rebuilding from a base and `DiffForReconstruction` against a target gives back the target. This covers changed fields, dropped and added fragment kinds, fields reset to null, and changed, dropped or added Starlark options. |
| Config.ReconstructFragments | src/test/java/com/google/devtools/build/lib/analysis/config/BuildOptionsTest.java:184-188 | The rebuilt fragments are exactly the target's fragments, including across different fragment sets. |
| Config.ReconstructStarlark | src/test/java/com/google/devtools/build/lib/analysis/config/BuildOptionsTest.java:236-278 | The rebuilt Starlark options are exactly the target's. |
| Config.BuildOptions.ApplyDiff | src/test/java/com/google/devtools/build/lib/analysis/config/BuildOptionsTest.java:151-163 | A diff computed against another base fails with "Can not reconstruct BuildOptions with a different base". An empty diff returns the object itself. Otherwise a fresh object holds the rebuilt configuration. |
| Config.ApplyDiffRoundTrip | src/test/java/com/google/devtools/build/lib/analysis/config/BuildOptionsTest.java:175-189 | `base.applyDiff(diffForReconstruction(base, target))` equals the target. It is the very base object when nothing changed and a fresh object otherwise. |
| Config.ApplyParsingResult | src/test/java/com/google/devtools/build/lib/analysis/config/BuildOptionsTest.java:346-403 | Fails exactly when some Starlark key is not a label in the `//pkg:name` or `@repo//pkg:name` form that `ParseLabel` accepts. Otherwise the fragment kinds are kept, and parsed fields overwrite the fields of kinds we have. Every parsed Starlark option is set, and every Starlark key of the result is the parse of one of the parsed keys, so no other Starlark option remains. |
| Config.ApplyIgnoresAbsentFragments | src/test/java/com/google/devtools/build/lib/analysis/config/BuildOptionsTest.java:364-380 | A parse that touches only fragment kinds we lack changes no fragment. |
| Config.MatchesAfterApply | src/test/java/com/google/devtools/build/lib/analysis/config/BuildOptionsTest.java:405-509 | A configuration built by applying a parse result satisfies `Matches`, the model of `matches`, against that parse result. This holds whenever the parse is not made only of ignored native options. |
| Labels.ParseLabel | src/main/java/com/google/devtools/build/lib/analysis/skylark/StarlarkTransition.java:189 | A parsed label is well formed and prints back as the parsed string. |
| Labels.ParsePrinted | src/main/java/com/google/devtools/build/lib/analysis/skylark/StarlarkTransition.java:189 | Every well-formed label parses back from its printed form. |
| Labels.ParseInjective | src/main/java/com/google/devtools/build/lib/analysis/skylark/StarlarkTransition.java:186-191 | Distinct strings never parse to the same label. |
| StarlarkTransitions.StarlarkTransition.ReplayOn | src/main/java/com/google/devtools/build/lib/analysis/skylark/StarlarkTransition.java:48-55 | The sink's log is extended with the buffered events in order, and the buffer ends empty, so `HasErrors` (the model of `hasErrors`) is false afterwards. |
| StarlarkTransitions.ReplayEvents | src/main/java/com/google/devtools/build/lib/analysis/skylark/StarlarkTransition.java:197-210 | The final buffers, the sink log and the outcome are exactly those of the replay specification run on the starting snapshot. |
| StarlarkTransitions.ReplayFailsIffSomeError | src/main/java/com/google/devtools/build/lib/analysis/skylark/StarlarkTransition.java:197-210 | Replay fails exactly when some visited definition had buffered an error, and the error is the events-error. |
| StarlarkTransitions.ReplayStopsAtFirstError | src/main/java/com/google/devtools/build/lib/analysis/skylark/StarlarkTransition.java:197-210 | Leaves after the first erroring leaf are not replayed. The full walk ends exactly as the walk cut at that leaf. |
| StarlarkTransitions.ReplaySuccessClears | src/main/java/com/google/devtools/build/lib/analysis/skylark/StarlarkTransition.java:197-210 | A successful replay empties every visited buffer and leaves other buffers untouched. |
| StarlarkTransitions.ReplayLogsInVisitOrder | src/main/java/com/google/devtools/build/lib/analysis/skylark/StarlarkTransition.java:197-210 | Without errors, and with one leaf per definition, the sink receives every buffer in the visit order `Leaves` gives. |
| StarlarkTransitions.NonNativeOutputs | src/main/java/com/google/devtools/build/lib/analysis/skylark/StarlarkTransition.java:186-191 | An output is kept exactly when it does not start with "//command_line_option:". A list without native options is kept whole. |
| StarlarkTransitions.NonNativeOutputsConcat | src/main/java/com/google/devtools/build/lib/analysis/skylark/StarlarkTransition.java:186-191 | Filtering a concatenation concatenates the filtered parts, so the filter keeps order and duplicates. |
| StarlarkTransitions.ChangedSettings | src/main/java/com/google/devtools/build/lib/analysis/skylark/StarlarkTransition.java:186-191 | The changed settings are the non-native outputs parsed as labels, one for one and in declaration order. |
| StarlarkTransitions.ResolveSetting | src/main/java/com/google/devtools/build/lib/analysis/skylark/StarlarkTransition.java:143-168 | A failed target lookup fails with the lookup's message. A target without a rule, or whose rule class declares no build setting, fails with "attempting to transition on '<label>' which is not a build setting". Otherwise the setting's declared type is returned. |
| StarlarkTransitions.CollectSucceedsIffAllResolve | src/main/java/com/google/devtools/build/lib/analysis/skylark/StarlarkTransition.java:137-170 | Collection succeeds exactly when every changed setting resolves. |
| StarlarkTransitions.CollectSucceeds | src/main/java/com/google/devtools/build/lib/analysis/skylark/StarlarkTransition.java:137-170 | After a successful collection, the map holds exactly the settings and the entries it started from. Each setting maps to its resolved type, and each earlier entry for a label the settings do not name is kept. |
| StarlarkTransitions.CollectFailsAtFirst | src/main/java/com/google/devtools/build/lib/analysis/skylark/StarlarkTransition.java:137-170 | A failed collection reports the failure of the first setting that does not resolve. |
| StarlarkTransitions.CollectSettingTypes | src/main/java/com/google/devtools/build/lib/analysis/skylark/StarlarkTransition.java:137-170 | The visitor loop over leaves and their settings yields the collection specification over all changed settings in visit order. |
| StarlarkTransitions.CheckOutputs | src/main/java/com/google/devtools/build/lib/analysis/skylark/StarlarkTransition.java:172-183 | Passes exactly when every output configuration's value for every collected setting converts. On failure, the message is that of a failing conversion, and every earlier configuration converted. |
| StarlarkTransitions.Validate | src/main/java/com/google/devtools/build/lib/analysis/skylark/StarlarkTransition.java:128-184 | Replay runs first, and its failure is the result. A collection failure comes next. Otherwise validation passes exactly when every output converts. A failure carries the message of a failing conversion, and every output configuration before the failing one converted for every setting. The buffers and the sink end as the replay specification says. |
| StarlarkTransitions.OnlyFinalOutputsAreChecked | src/main/java/com/google/devtools/build/lib/analysis/skylark/StarlarkTransition.java:124-127 | A bad value written by one transition fails the check alone. When a later composed transition overwrites it, the composition passes. |
| StarlarkTransitions.BuildSettingPackageKeys | src/main/java/com/google/devtools/build/lib/analysis/skylark/StarlarkTransition.java:89-103 | The result is the set of package keys of every changed setting of every Starlark leaf. |
| StarlarkTransitions.StarlarkTransition.Equals | src/main/java/com/google/devtools/build/lib/analysis/skylark/StarlarkTransition.java:212-223 | A transition equals itself. Against another Starlark leaf, equality holds iff the definitions are the same. It never equals a transition of another kind. |
| StarlarkTransitions.EqualsIsEquivalence | src/main/java/com/google/devtools/build/lib/analysis/skylark/StarlarkTransition.java:212-228 | Equality between Starlark leaves is symmetric and transitive. |
| WindowsFile.AddUncPrefixMaybe | src/main/native/windows/file.cc:37-41 | The result is the path itself or the path behind `\\?\`. A path that already has the prefix is kept as it is. |
| WindowsFile.AddUncPrefixGivesUnc | src/main/native/windows/file.cc:37-41 | An empty or null-device path is returned unchanged. Any other path ends up UNC-prefixed. |
| WindowsFile.AddUncPrefixIdempotent | src/main/native/windows/file.cc:37-41 | Adding the prefix twice is the same as adding it once. |
| WindowsFile.RemoveUncPrefixMaybe | src/main/native/windows/file.cc:43-45 | A UNC-prefixed path loses exactly its first four characters. Any other path is unchanged. |
| WindowsFile.UncPrefixRoundTrip | src/main/native/windows/file.cc:37-45 | Removing the prefix undoes adding it, for a path without one. |
| WindowsFile.DriveSpecifierSurvivesUncPrefix | src/main/native/windows/file.cc:47-53 | `HasDriveSpecifierPrefix` looks for the drive specifier past the UNC prefix, so prefixing keeps the verdict. |
| WindowsFile.Find | src/main/native/windows/file.cc:62-69 | `wstring::find` returns npos exactly when the pattern does not occur. Otherwise it returns the first occurrence. |
| WindowsFile.SlashFound | src/main/native/windows/file.cc:62 | `find_first_of('/')` finds something exactly when the path holds a `/`. |
| WindowsFile.FirstAtEnd | src/main/native/windows/file.cc:67-69 | The first occurrence sits at the end exactly when the pattern ends the path and occurs nowhere earlier. |
| WindowsFile.CorrectedValidatorIsStricter | src/main/native/windows/file.cc:55-70 | `IsAbsoluteNormalizedWindowsPath`, the corrected validator, accepts only paths that `IsAbsoluteNormalizedWindowsPathAsWritten`, the code's validator, accepts. The two agree on every path that ends in neither `\.` nor `\..`. |
| WindowsFile.AsWrittenAcceptsTrailingDot | src/main/native/windows/file.cc:55-70 | The validator as written accepts `C:\a\.b\.`, whose last segment is `.`. The corrected validator rejects it. |
| WindowsFile.PathGuard | src/main/native/windows/file.cc:81-113 | A path the validator as written refuses is rejected with the operation's message before any OS call. Every path the corrected validator accepts gets through. IsSymlinkOrJunction passes the path as given. The other operations pass the UNC-prefixed path, which strips back to the original. GetLongPath is guarded at file.cc:108-113, ReadSymlinkOrJunction at file.cc:423-432 and DeletePath at file.cc:561-568, all with the same check. |
| WindowsFile.GuardsLetTrailingDotThrough | src/main/native/windows/file.cc:81-113 | Every path guard, and CreateJunction for its target, lets `C:\a\.b\.` through to the OS call. |
| WindowsFile.JunctionLimitIsExact | src/main/native/windows/file.cc:181-208 | The limit is 4089. A target fits the reparse buffer exactly when it is within the limit, and no USHORT length of a fitting record is truncated. |
| WindowsFile.CreateJunctionGuard | src/main/native/windows/file.cc:156-211 | Both paths are checked first by the validator as written, the name before the target, each with its own message. Two paths the corrected validator accepts both get through. A UNC-stripped target over the limit gives kTargetNameTooLong. Otherwise the junction is created under the UNC-prefixed name, with a target that fits. |
| WindowsFile.ReparseDataBuffer.FillMountPoint | src/main/native/windows/file.cc:323-374 | Sets the tag and the four name offsets and lengths, and sets ReparseDataLength, which together with the header equals the record size. The path buffer holds `\??\` and the target, a NUL, the target and a NUL. The substitute name reads back as `\??\` plus the target, and the print name as the target. |
| WindowsFile.LowDigitsRoundTrip | src/main/native/windows/file.cc:72-79 | Reading back the n low hexadecimal digits gives the value modulo 16^n. |
| WindowsFile.Uint32AsHexString | src/main/native/windows/file.cc:72-79 | Yields exactly eight lowercase hexadecimal digits, most significant first, that read back as the input. |
| WindowsFile.CheckDirectoryStatus | src/main/native/windows/file.cc:514-560 | A listing that cannot start gives DoesNotExist. Otherwise the result is the classification over the whole listing: NotEmpty if some child other than `.` or `..` is readable or fails for a reason other than access-denied or not-found; otherwise ChildMarkedForDeletionExists if some child is access-denied; otherwise Empty. |

## Left out

- Operating-system calls are not modelled. This covers `GetFileAttributesW`, `GetLongPathNameW`, `CreateDirectoryW`, `CreateFileW`, `DeviceIoControl`, `FindFirstFileW`/`FindNextFileW` and `DeleteFileW`, and their error-code branches. The guards stop at the point where the OS call is made, and the directory enumeration becomes an optional listing of probe outcomes.
- The `DeletePath` retry loop with `Sleep` and the attribute-clearing path are not modelled. They are OS interaction only.
- The comparison of an existing junction's target uses `_wcsnicmp` on the read-back buffer and is not modelled. It is a case-insensitive comparison of OS output.
- The symbolic-link case of `ReadSymlinkOrJunction` is not modelled. Only the mount-point layout is.
- `iswalpha` is restricted to ASCII letters.
- `HasUncPrefix` and `IsDevNull` are declared in a header outside this model. They are parameters, and only the facts `Valid` states are assumed of them: a UNC path has at least four characters, and prefixing gives a UNC path.
- processes-jni.cc is not part of this model. It is Win32 process, pipe and job plumbing with JNI glue.
- The implementation class of BuildOptions is not part of this model. Its behaviour is taken from the assertions of BuildOptionsTest.java.
- `toString`, `computeCacheKey`, `prettyPrint` and the byte codec with its caches (BuildOptionsTest.java:51-70, 291-333) are not modelled. The base fingerprint a reconstruction diff carries is modelled as the base value itself, that is, a collision-free fingerprint.
- Config.ReconstructRoundTrip: assumes that fragments of one kind have the same field set on both sides (`SameLayout`), which the Java classes guarantee.
- Config.MatchesAfterApply: requires every parsed field of a shared kind to be a field of that kind, which the parser guarantees.
- Labels.ParseLabel: accepts only the explicit-name forms `//pkg:name` and `@repo//pkg:name`. The shorthand `//pkg` and the rest of the label grammar are not modelled.
- Config.ApplyParsingResult: a Starlark key in shorthand form, such as `//foo/flag` (BuildOptionsTest.java:193, 203, 221-222, 237), makes the model fail, whereas `Label.parseAbsoluteUnchecked` accepts it and the source succeeds. This follows from the restriction of `Labels.ParseLabel`, which keeps parsing injective.
- The options parser, the Starlark interpreter, Skyframe package loading and `Type.convert` are not modelled. Their results are inputs: a map of parsed values, the definitions' outputs and event buffers, a map from package key to package with a target lookup, and a conversion function.
- The composing transition's `visit` is not part of this model. The visit order, first part then second part, is an assumption.
- `StoredEventHandler` is not modelled beyond its buffer. `hasErrors` is taken to mean "some buffered event is an error", and `clear` empties the buffer.
- StarlarkTransitions.CheckOutputs: iterates the setting-to-type map in an unspecified order, as a `HashMap` does, so which failing conversion is reported is fixed only up to that order.
- StarlarkTransitions.ChangedSettings: every output that does not name a native option is taken to be a well-formed absolute label (`Outputs`). The `IllegalArgumentException` that the unchecked label parse at StarlarkTransition.java:189 throws on a malformed label is not modelled. That exception would escape `getChangedStarlarkSettings`, `validate` and `getBuildSettingPackageKeys`.
- `hashCode` of a Starlark transition is not modelled. The identity of the wrapped definition stands for `Objects.equals` on it, that is, the definition's own equality is taken to be reference equality.

## Findings

| source | as written | input that shows it | evidently intended | confidence | as-written member | corrected member |
|---|---|---|---|---|---|---|
| src/main/native/windows/file.cc:67-69 | The trailing `\.` and `\..` tests compare the position of the first occurrence of the pattern with the end of the path. | `C:\a\.b\.`: the first `\.` is at index 4, not at size-2 = 7, so the path is accepted although its last segment is `.` | Reject every path that ends in `\.` or `\..` | not executed | WindowsFile.AsWrittenAcceptsTrailingDot | WindowsFile.CorrectedValidatorIsStricter |
