/**
 * A build configuration: one options fragment per fragment kind plus the
 * values of Starlark-defined settings, with the diff, reconstruction and
 * parsing-result operations the configuration tests pin down.
 */
module Config {
  import opened Wrappers
  import opened Labels

  /** A fragment kind stands for a FragmentOptions class (CoreOptions, CppOptions, ...). */
  type FragmentKind = string
  type FieldName = string

  /** An option value; `Null` is Java's null, the value of an unset option such as --compiler. */
  datatype Value = Null | Str(s: string) | Bool(b: bool) | Int(i: int) | StrList(items: seq<string>)

  /** One FragmentOptions instance: its fields and their values. */
  type Fragment = map<FieldName, Value>

  /** The value of a BuildOptions object: native fragments and Starlark options. */
  datatype Options = Options(fragments: map<FragmentKind, Fragment>, starlark: map<Label, Value>)

  /** Reading a field; a field the fragment does not hold reads as null. */
  function FieldValue(f: Fragment, name: FieldName): Value {
    if name in f then f[name] else Null
  }

  /**
   * Fragments of one kind are instances of one Java class, so they have the
   * same fields. Two configurations related by the operations below agree on
   * the field set of every kind they share.
   */
  predicate SameLayout(a: Options, b: Options) {
    forall k | k in a.fragments && k in b.fragments :: a.fragments[k].Keys == b.fragments[k].Keys
  }

  datatype OptionsError =
    | NullDiffArgument
    | DifferentBase
    | InvalidStarlarkLabels(keys: set<string>)
  {
    function Message(): string {
      match this
      case NullDiffArgument => "Cannot diff null BuildOptions"
      case DifferentBase => "Can not reconstruct BuildOptions with a different base"
      case InvalidStarlarkLabels(_) => "invalid Starlark option label"
    }
  }

  /** Structural equality of configurations is equality of every fragment field and Starlark value. */
  lemma EqualityIsFieldwise(a: Options, b: Options)
    requires SameLayout(a, b)
    ensures a == b <==>
      && a.fragments.Keys == b.fragments.Keys
      && (forall k, f | k in a.fragments && k in b.fragments ::
            FieldValue(a.fragments[k], f) == FieldValue(b.fragments[k], f))
      && a.starlark == b.starlark
  {
    if && a.fragments.Keys == b.fragments.Keys
       && (forall k, f | k in a.fragments && k in b.fragments ::
             FieldValue(a.fragments[k], f) == FieldValue(b.fragments[k], f))
       && a.starlark == b.starlark
    {
      forall k | k in a.fragments ensures a.fragments[k] == b.fragments[k] {
        forall f | f in a.fragments[k] ensures a.fragments[k][f] == b.fragments[k][f] {
          assert FieldValue(a.fragments[k], f) == FieldValue(b.fragments[k], f);
        }
      }
    }
  }

  // ---------------------------------------------------------------- diff

  /** Identifies one option: a field of a fragment kind (an OptionDefinition). */
  datatype FieldKey = FieldKey(kind: FragmentKind, field: FieldName)

  /** The result of comparing a first and a second configuration. */
  datatype OptionsDiff = OptionsDiff(
    first: map<FieldKey, Value>,
    second: map<FieldKey, Value>,
    extraFirstFragments: set<FragmentKind>,
    extraSecondFragments: map<FragmentKind, Fragment>,
    starlarkFirst: map<Label, Value>,
    starlarkSecond: map<Label, Value>,
    extraStarlarkFirst: set<Label>,
    extraStarlarkSecond: map<Label, Value>)
  {
    predicate AreSame() {
      && first == map[] && second == map[]
      && extraFirstFragments == {} && extraSecondFragments == map[]
      && starlarkFirst == map[] && starlarkSecond == map[]
      && extraStarlarkFirst == {} && extraStarlarkSecond == map[]
    }
  }

  /** The options of fragment kinds present on both sides whose values differ. */
  function DifferingFields(a: Options, b: Options): (r: set<FieldKey>)
    ensures forall fk | fk in r :: fk.kind in a.fragments && fk.kind in b.fragments
    ensures forall k, f | k in a.fragments && k in b.fragments ::
      FieldKey(k, f) in r <==> FieldValue(a.fragments[k], f) != FieldValue(b.fragments[k], f)
  {
    set k, f | k in a.fragments && k in b.fragments
            && f in a.fragments[k].Keys + b.fragments[k].Keys
            && FieldValue(a.fragments[k], f) != FieldValue(b.fragments[k], f)
      :: FieldKey(k, f)
  }

  /** The values one side holds for the given option keys, `Null` for an option its fragment lacks. */
  function FieldValues(o: Options, fields: set<FieldKey>): (r: map<FieldKey, Value>)
    requires forall fk | fk in fields :: fk.kind in o.fragments
    ensures r.Keys == fields
    ensures forall fk | fk in r :: r[fk] == FieldValue(o.fragments[fk.kind], fk.field)
  {
    map fk | fk in fields :: FieldValue(o.fragments[fk.kind], fk.field)
  }

  /** The keys present in both maps with different values. */
  function DifferingKeys<K(!new), V(==)>(a: map<K, V>, b: map<K, V>): (r: set<K>)
    ensures forall k :: k in r <==> k in a && k in b && a[k] != b[k]
  {
    set k | k in a && k in b && a[k] != b[k]
  }

  /** The entries of `m` whose keys are in `s`. */
  function Restrict<K, V>(m: map<K, V>, s: set<K>): (r: map<K, V>)
    requires s <= m.Keys
    ensures r.Keys == s
    ensures forall k | k in r :: r[k] == m[k]
  {
    map k | k in s :: m[k]
  }

  /** The entries of `b` whose keys `a` lacks. */
  function Added<K, V>(a: map<K, V>, b: map<K, V>): (r: map<K, V>)
    ensures r.Keys == b.Keys - a.Keys
    ensures forall k | k in r :: r[k] == b[k]
  {
    map k | k in b && k !in a :: b[k]
  }

  /**
   * BuildOptions.diff on two present configurations: the per-field first and
   * second values, the one-sided fragment kinds (the second side's fragments
   * kept whole) and the one-sided and differing Starlark options.
   */
  function Compare(a: Options, b: Options): (d: OptionsDiff)
    ensures d.first.Keys == d.second.Keys && d.starlarkFirst.Keys == d.starlarkSecond.Keys
    ensures forall fk | fk in d.first :: d.first[fk] != d.second[fk]
    ensures forall l | l in d.starlarkFirst :: d.starlarkFirst[l] != d.starlarkSecond[l]
  {
    var fields := DifferingFields(a, b);
    var differing := DifferingKeys(a.starlark, b.starlark);
    OptionsDiff(
      FieldValues(a, fields),
      FieldValues(b, fields),
      a.fragments.Keys - b.fragments.Keys,
      Added(a.fragments, b.fragments),
      Restrict(a.starlark, differing),
      Restrict(b.starlark, differing),
      a.starlark.Keys - b.starlark.Keys,
      Added(a.starlark, b.starlark))
  }

  /** A diff reports nothing exactly when the two configurations are equal. */
  lemma DiffAreSameIffEqual(a: Options, b: Options)
    requires SameLayout(a, b)
    ensures Compare(a, b).AreSame() <==> a == b
  {
    if a == b {
      DiffOfEqualIsEmpty(a);
    }
    if Compare(a, b).AreSame() {
      EmptyDiffMeansEqual(a, b);
    }
  }

  lemma DiffOfEqualIsEmpty(a: Options)
    ensures Compare(a, a).AreSame()
  {
    assert DifferingFields(a, a) == {};
    assert DifferingKeys(a.starlark, a.starlark) == {};
  }

  lemma EmptyDiffMeansEqual(a: Options, b: Options)
    requires SameLayout(a, b)
    requires Compare(a, b).AreSame()
    ensures a == b
  {
    EmptyDiffMeansSameParts(a, b);
    SameParts(a, b);
  }

  lemma EmptyDiffMeansSameParts(a: Options, b: Options)
    requires SameLayout(a, b)
    requires Compare(a, b).AreSame()
    ensures a.fragments == b.fragments && a.starlark == b.starlark
  {
    EmptyDiffKeys(a, b);
    NoDifferingFields(a, b);
    NoDifferingKeys(a.starlark, b.starlark);
  }

  /** What an empty diff says about each part of the two configurations. */
  lemma EmptyDiffKeys(a: Options, b: Options)
    requires Compare(a, b).AreSame()
    ensures a.fragments.Keys == b.fragments.Keys && DifferingFields(a, b) == {}
    ensures a.starlark.Keys == b.starlark.Keys && DifferingKeys(a.starlark, b.starlark) == {}
  {
    CompareKeys(a, b);
    EmptyPartsKeys(Compare(a, b), a, b);
  }

  lemma EmptyPartsKeys(d: OptionsDiff, a: Options, b: Options)
    requires d.AreSame()
    requires d.first.Keys == DifferingFields(a, b)
    requires d.extraFirstFragments == a.fragments.Keys - b.fragments.Keys
    requires d.extraSecondFragments.Keys == b.fragments.Keys - a.fragments.Keys
    requires d.starlarkFirst.Keys == DifferingKeys(a.starlark, b.starlark)
    requires d.extraStarlarkFirst == a.starlark.Keys - b.starlark.Keys
    requires d.extraStarlarkSecond.Keys == b.starlark.Keys - a.starlark.Keys
    ensures a.fragments.Keys == b.fragments.Keys && DifferingFields(a, b) == {}
    ensures a.starlark.Keys == b.starlark.Keys && DifferingKeys(a.starlark, b.starlark) == {}
  {
    assert d.first.Keys == {} && d.starlarkFirst.Keys == {};
    assert d.extraSecondFragments.Keys == {} && d.extraStarlarkSecond.Keys == {};
  }

  lemma NoDifferingFields(a: Options, b: Options)
    requires SameLayout(a, b)
    requires a.fragments.Keys == b.fragments.Keys && DifferingFields(a, b) == {}
    ensures a.fragments == b.fragments
  {
    forall k | k in a.fragments ensures a.fragments[k] == b.fragments[k] {
      forall f | f in a.fragments[k] ensures a.fragments[k][f] == b.fragments[k][f] {
        assert FieldKey(k, f) !in DifferingFields(a, b);
      }
    }
  }

  lemma SameParts(a: Options, b: Options)
    requires a.fragments == b.fragments && a.starlark == b.starlark
    ensures a == b
  {
  }

  lemma NoDifferingKeys<K(!new), V>(a: map<K, V>, b: map<K, V>)
    requires a.Keys == b.Keys && DifferingKeys(a, b) == {}
    ensures a == b
  {
    forall k | k in a ensures a[k] == b[k] {
      assert k !in DifferingKeys(a, b);
    }
  }

  /** The key sets of each part of a diff. */
  lemma CompareKeys(a: Options, b: Options)
    ensures var d := Compare(a, b);
      && d.first.Keys == DifferingFields(a, b)
      && d.extraFirstFragments == a.fragments.Keys - b.fragments.Keys
      && d.extraSecondFragments.Keys == b.fragments.Keys - a.fragments.Keys
      && d.starlarkFirst.Keys == DifferingKeys(a.starlark, b.starlark)
      && d.extraStarlarkFirst == a.starlark.Keys - b.starlark.Keys
      && d.extraStarlarkSecond.Keys == b.starlark.Keys - a.starlark.Keys
  {
  }

  lemma DifferingFieldsSymmetric(a: Options, b: Options)
    ensures DifferingFields(b, a) == DifferingFields(a, b)
  {
    forall fk | fk in DifferingFields(a, b) ensures fk in DifferingFields(b, a) {
      assert FieldKey(fk.kind, fk.field) == fk;
    }
    forall fk | fk in DifferingFields(b, a) ensures fk in DifferingFields(a, b) {
      assert FieldKey(fk.kind, fk.field) == fk;
    }
  }

  lemma DiffSymmetricFragments(a: Options, b: Options)
    ensures Compare(b, a).first == Compare(a, b).second
    ensures Compare(b, a).second == Compare(a, b).first
    ensures Compare(b, a).extraFirstFragments == Compare(a, b).extraSecondFragments.Keys
    ensures Compare(b, a).extraSecondFragments.Keys == Compare(a, b).extraFirstFragments
  {
    DifferingFieldsSymmetric(a, b);
  }

  lemma DiffSymmetricStarlark(a: Options, b: Options)
    ensures Compare(b, a).starlarkFirst == Compare(a, b).starlarkSecond
    ensures Compare(b, a).starlarkSecond == Compare(a, b).starlarkFirst
    ensures Compare(b, a).extraStarlarkFirst == Compare(a, b).extraStarlarkSecond.Keys
    ensures Compare(b, a).extraStarlarkSecond.Keys == Compare(a, b).extraStarlarkFirst
  {
    assert DifferingKeys(b.starlark, a.starlark) == DifferingKeys(a.starlark, b.starlark);
  }

  /** Swapping the arguments swaps the two sides of every difference. */
  lemma DiffSymmetric(a: Options, b: Options)
    ensures Compare(b, a).first == Compare(a, b).second
    ensures Compare(b, a).second == Compare(a, b).first
    ensures Compare(b, a).extraFirstFragments == Compare(a, b).extraSecondFragments.Keys
    ensures Compare(b, a).extraSecondFragments.Keys == Compare(a, b).extraFirstFragments
    ensures Compare(b, a).starlarkFirst == Compare(a, b).starlarkSecond
    ensures Compare(b, a).starlarkSecond == Compare(a, b).starlarkFirst
    ensures Compare(b, a).extraStarlarkFirst == Compare(a, b).extraStarlarkSecond.Keys
    ensures Compare(b, a).extraStarlarkSecond.Keys == Compare(a, b).extraStarlarkFirst
    ensures Compare(b, a).AreSame() == Compare(a, b).AreSame()
  {
    DiffSymmetricFragments(a, b);
    DiffSymmetricStarlark(a, b);
    AreSameSwapped(Compare(a, b), Compare(b, a));
  }

  lemma AreSameSwapped(ab: OptionsDiff, ba: OptionsDiff)
    requires ba.first == ab.second && ba.second == ab.first
    requires ba.extraFirstFragments == ab.extraSecondFragments.Keys
    requires ba.extraSecondFragments.Keys == ab.extraFirstFragments
    requires ba.starlarkFirst == ab.starlarkSecond && ba.starlarkSecond == ab.starlarkFirst
    requires ba.extraStarlarkFirst == ab.extraStarlarkSecond.Keys
    requires ba.extraStarlarkSecond.Keys == ab.extraStarlarkFirst
    ensures ba.AreSame() == ab.AreSame()
  {
  }

  /** BuildOptions.diff: a null argument is rejected before anything is compared. */
  method Diff(first: BuildOptions?, second: BuildOptions?) returns (r: Result<OptionsDiff, OptionsError>)
    ensures r.Failure? <==> first == null || second == null
    ensures r.Failure? ==> r.error == NullDiffArgument
    ensures r.Success? ==> r.value == Compare(first.options, second.options)
  {
    if first == null || second == null {
      return Failure(NullDiffArgument);
    }
    r := Success(Compare(first.options, second.options));
  }

  // ------------------------------------------------------ reconstruction

  /**
   * A diff bound to the base it was computed from. The base fingerprint is
   * modelled by the base value itself, that is, by a collision-free
   * fingerprint. Only the second side's values are kept.
   */
  datatype OptionsDiffForReconstruction = OptionsDiffForReconstruction(
    baseFingerprint: Options,
    changedFields: map<FieldKey, Value>,
    droppedFragments: set<FragmentKind>,
    addedFragments: map<FragmentKind, Fragment>,
    droppedStarlark: set<Label>,
    changedStarlark: map<Label, Value>,
    addedStarlark: map<Label, Value>)
  {
    predicate IsEmpty() {
      && changedFields == map[] && droppedFragments == {} && addedFragments == map[]
      && droppedStarlark == {} && changedStarlark == map[] && addedStarlark == map[]
    }
  }

  function DiffForReconstruction(base: Options, target: Options): OptionsDiffForReconstruction {
    var d := Compare(base, target);
    OptionsDiffForReconstruction(
      base, d.second, d.extraFirstFragments, d.extraSecondFragments,
      d.extraStarlarkFirst, d.starlarkSecond, d.extraStarlarkSecond)
  }

  /** A copy of a base fragment with the recorded fields of its kind overwritten. */
  function TransformFragment(kind: FragmentKind, f: Fragment, changes: map<FieldKey, Value>): Fragment {
    map name | name in f :: if FieldKey(kind, name) in changes then changes[FieldKey(kind, name)] else f[name]
  }

  /** The kept fragments of a base, each with the changed options overwritten. */
  function TransformFragments(fragments: map<FragmentKind, Fragment>, dropped: set<FragmentKind>,
                              changes: map<FieldKey, Value>): (r: map<FragmentKind, Fragment>)
    ensures r.Keys == fragments.Keys - dropped
    ensures forall k | k in r :: r[k] == TransformFragment(k, fragments[k], changes)
  {
    map k | k in fragments && k !in dropped :: TransformFragment(k, fragments[k], changes)
  }

  /** The configuration rebuilt from a base and a diff (the non-empty case of applyDiff). */
  function Reconstruct(base: Options, d: OptionsDiffForReconstruction): Options {
    Options(
      TransformFragments(base.fragments, d.droppedFragments, d.changedFields) + d.addedFragments,
      (base.starlark - d.droppedStarlark) + d.changedStarlark + d.addedStarlark)
  }

  /** The diff of a configuration against another is empty exactly when the two are equal. */
  lemma ReconstructionDiffEmptyIffEqual(base: Options, target: Options)
    requires SameLayout(base, target)
    ensures DiffForReconstruction(base, target).IsEmpty() <==> base == target
  {
    DiffAreSameIffEqual(base, target);
    ReconstructionPartsEmpty(Compare(base, target), base);
  }

  /** Dropping the first-side values loses nothing when checking for emptiness. */
  lemma ReconstructionPartsEmpty(d: OptionsDiff, base: Options)
    requires d.first.Keys == d.second.Keys && d.starlarkFirst.Keys == d.starlarkSecond.Keys
    ensures OptionsDiffForReconstruction(
              base, d.second, d.extraFirstFragments, d.extraSecondFragments,
              d.extraStarlarkFirst, d.starlarkSecond, d.extraStarlarkSecond).IsEmpty()
        <==> d.AreSame()
  {
    assert d.second == map[] ==> d.first.Keys == {};
    assert d.starlarkSecond == map[] ==> d.starlarkFirst.Keys == {};
  }

  /** Overwriting exactly the options that differ turns one fragment into the other. */
  lemma TransformRecovers(k: FragmentKind, bf: Fragment, tf: Fragment, changes: map<FieldKey, Value>)
    requires bf.Keys == tf.Keys
    requires forall f | f in bf && FieldKey(k, f) in changes :: changes[FieldKey(k, f)] == tf[f]
    requires forall f | f in bf && FieldKey(k, f) !in changes :: bf[f] == tf[f]
    ensures TransformFragment(k, bf, changes) == tf
  {
    var t := TransformFragment(k, bf, changes);
    MapsEqual(t, tf);
  }

  lemma ReconstructFragment(base: Options, target: Options, k: FragmentKind)
    requires SameLayout(base, target)
    requires k in base.fragments && k in target.fragments
    ensures TransformFragment(k, base.fragments[k], DiffForReconstruction(base, target).changedFields)
         == target.fragments[k]
  {
    var changes := DiffForReconstruction(base, target).changedFields;
    var bf, tf := base.fragments[k], target.fragments[k];
    assert changes == FieldValues(target, DifferingFields(base, target));
    forall f | f in bf && FieldKey(k, f) in changes ensures changes[FieldKey(k, f)] == tf[f] {
      assert FieldValue(tf, f) == tf[f];
    }
    forall f | f in bf && FieldKey(k, f) !in changes ensures bf[f] == tf[f] {
      assert FieldValue(bf, f) == FieldValue(tf, f);
    }
    TransformRecovers(k, bf, tf, changes);
  }

  lemma ReconstructFragments(base: Options, target: Options)
    requires SameLayout(base, target)
    ensures Reconstruct(base, DiffForReconstruction(base, target)).fragments == target.fragments
  {
    var d := DiffForReconstruction(base, target);
    var kept := TransformFragments(base.fragments, d.droppedFragments, d.changedFields);
    var r := kept + d.addedFragments;
    forall k ensures k in r <==> k in target.fragments {
    }
    forall k | k in target.fragments ensures r[k] == target.fragments[k] {
      if k in base.fragments {
        assert k !in d.addedFragments;
        ReconstructFragment(base, target, k);
      }
    }
    MapsEqual(r, target.fragments);
  }

  /**
   * Map-level core of the Starlark half of reconstruction: dropping the keys
   * the target lacks, then overlaying the changed and the added entries,
   * gives back the target.
   */
  lemma RebuildMap<K(!new), V>(base: map<K, V>, target: map<K, V>)
    ensures (base - (base.Keys - target.Keys))
            + Restrict(target, DifferingKeys(base, target))
            + Added(base, target)
         == target
  {
    var changed := Restrict(target, DifferingKeys(base, target));
    var added := Added(base, target);
    var r := (base - (base.Keys - target.Keys)) + changed + added;
    forall l ensures l in r <==> l in target {
    }
    forall l | l in target ensures r[l] == target[l] {
      if l !in base {
        assert l in added;
      } else if base[l] != target[l] {
        assert l in changed && l !in added;
      } else {
        assert l !in changed && l !in added;
      }
    }
    MapsEqual(r, target);
  }

  lemma ReconstructStarlark(base: Options, target: Options)
    ensures Reconstruct(base, DiffForReconstruction(base, target)).starlark == target.starlark
  {
    RebuildMap(base.starlark, target.starlark);
  }

  lemma MapsEqual<K, V>(m1: map<K, V>, m2: map<K, V>)
    requires forall k :: k in m1 <==> k in m2
    requires forall k | k in m1 && k in m2 :: m1[k] == m2[k]
    ensures m1 == m2
  {
  }

  /** Rebuilding from the base and the diff against a target gives back the target. */
  lemma ReconstructRoundTrip(base: Options, target: Options)
    requires SameLayout(base, target)
    ensures Reconstruct(base, DiffForReconstruction(base, target)) == target
  {
    ReconstructFragments(base, target);
    ReconstructStarlark(base, target);
  }

  /**
   * A BuildOptions object: a reference to an immutable configuration value,
   * so that applyDiff can hand back the very object it was called on.
   */
  class BuildOptions {
    const options: Options

    constructor (o: Options)
      ensures options == o
    {
      options := o;
    }

    /**
     * Applies a diff computed against this configuration: a diff computed
     * against another base is refused; an empty diff returns this very object;
     * otherwise a new object holds the rebuilt configuration.
     */
    method ApplyDiff(diff: OptionsDiffForReconstruction) returns (r: Result<BuildOptions, OptionsError>)
      ensures diff.baseFingerprint != options ==> r == Failure(DifferentBase)
      ensures diff.baseFingerprint == options && diff.IsEmpty() ==> r == Success(this)
      ensures diff.baseFingerprint == options && !diff.IsEmpty() ==>
        r.Success? && fresh(r.value) && r.value.options == Reconstruct(options, diff)
    {
      if diff.baseFingerprint != options {
        return Failure(DifferentBase);
      }
      if diff.IsEmpty() {
        return Success(this);
      }
      var rebuilt := new BuildOptions(Reconstruct(options, diff));
      r := Success(rebuilt);
    }
  }

  /**
   * `base.applyDiff(diffForReconstruction(base, target))`: equal to the target,
   * the base object itself when nothing changed, and a new object otherwise.
   */
  method ApplyDiffRoundTrip(base: BuildOptions, target: BuildOptions) returns (r: BuildOptions)
    requires SameLayout(base.options, target.options)
    ensures r.options == target.options
    ensures base.options == target.options ==> r == base
    ensures base.options != target.options ==> fresh(r)
  {
    var d := DiffForReconstruction(base.options, target.options);
    ReconstructionDiffEmptyIffEqual(base.options, target.options);
    ReconstructRoundTrip(base.options, target.options);
    var applied := base.ApplyDiff(d);
    r := applied.value;
  }

  // ------------------------------------------------------ parsing result

  /**
   * What an options parser holds after parsing: the explicitly given native
   * options grouped by fragment kind, and the Starlark options keyed by the
   * label strings as written.
   */
  datatype ParsingResult = ParsingResult(
    explicit: map<FragmentKind, map<FieldName, Value>>,
    starlark: map<string, Value>)

  /** The labels the Starlark option keys parse to. */
  function ParsedLabels(m: map<string, Value>): (r: set<Label>)
    ensures forall l | l in r :: ToString(l) in m && ParseLabel(ToString(l)) == Some(l)
    ensures forall s | s in m && ParseLabel(s).Some? :: ParseLabel(s).value in r
  {
    set s | s in m && ParseLabel(s).Some? :: ParseLabel(s).value
  }

  function MalformedKeys(m: map<string, Value>): set<string> {
    set s | s in m && ParseLabel(s).None?
  }

  /** A fragment with the parsed values of its own fields written over it. */
  function OverwriteFields(f: Fragment, parsed: map<FieldName, Value>): Fragment {
    map name | name in f :: if name in parsed then parsed[name] else f[name]
  }

  /**
   * BuildOptions.applyParsingResult: the parsed native options overwrite the
   * fields of fragments this configuration has, fragment kinds it lacks are
   * ignored, and the Starlark options become those of the parse; a malformed
   * Starlark label is refused.
   */
  function ApplyParsingResult(o: Options, p: ParsingResult): (r: Result<Options, OptionsError>)
    ensures r.Failure? <==> exists s :: s in p.starlark && ParseLabel(s).None?
    ensures r.Success? ==> r.value.fragments.Keys == o.fragments.Keys && SameLayout(o, r.value)
    ensures r.Success? ==> forall k, f | k in o.fragments && k in p.explicit && f in o.fragments[k] ::
      r.value.fragments[k][f] == (if f in p.explicit[k] then p.explicit[k][f] else o.fragments[k][f])
    ensures r.Success? ==> forall k | k in o.fragments && k !in p.explicit :: r.value.fragments[k] == o.fragments[k]
    ensures r.Success? ==> forall s | s in p.starlark ::
      ParseLabel(s).value in r.value.starlark && r.value.starlark[ParseLabel(s).value] == p.starlark[s]
    ensures r.Success? ==> forall l | l in r.value.starlark ::
      ToString(l) in p.starlark && ParseLabel(ToString(l)) == Some(l)
  {
    var malformed := MalformedKeys(p.starlark);
    if malformed != {} then
      assert exists s :: s in malformed;
      Failure(InvalidStarlarkLabels(malformed))
    else
      assert forall s | s in p.starlark :: s !in malformed;
      Success(Options(OverwriteFragments(o.fragments, p.explicit), ParsedStarlark(p.starlark)))
  }

  /** Every fragment with the parsed values of its kind written over it. */
  function OverwriteFragments(fragments: map<FragmentKind, Fragment>, explicit: map<FragmentKind, map<FieldName, Value>>)
    : (r: map<FragmentKind, Fragment>)
    ensures r.Keys == fragments.Keys
    ensures forall k | k in r :: r[k].Keys == fragments[k].Keys
    ensures forall k, f | k in fragments && k in explicit && f in fragments[k] ::
      r[k][f] == (if f in explicit[k] then explicit[k][f] else fragments[k][f])
    ensures forall k | k in fragments && k !in explicit :: r[k] == fragments[k]
  {
    map k | k in fragments :: if k in explicit then OverwriteFields(fragments[k], explicit[k]) else fragments[k]
  }

  /** The parsed Starlark options keyed by label; every key is required to parse. */
  function ParsedStarlark(m: map<string, Value>): (r: map<Label, Value>)
    requires forall s | s in m :: ParseLabel(s).Some?
    ensures forall s | s in m :: ParseLabel(s).value in r && r[ParseLabel(s).value] == m[s]
    ensures forall l | l in r :: ToString(l) in m && ParseLabel(ToString(l)) == Some(l)
  {
    var r := map l | l in ParsedLabels(m) :: m[ToString(l)];
    assert forall s | s in m :: ToString(ParseLabel(s).value) == s;
    r
  }

  /** No parsed native option belongs to a fragment kind this configuration has. */
  predicate AllParsedOptionsIgnored(o: Options, p: ParsingResult) {
    forall k | k in p.explicit && p.explicit[k] != map[] :: k !in o.fragments
  }

  /**
   * BuildOptions.matches: every parsed value of a shared fragment equals ours,
   * every parsed Starlark option is present here with an equal value, and a
   * parse whose native options all belong to absent fragments matches only
   * through a Starlark option.
   */
  predicate Matches(o: Options, p: ParsingResult) {
    && (forall k, f | k in p.explicit && k in o.fragments && f in p.explicit[k] ::
          FieldValue(o.fragments[k], f) == p.explicit[k][f])
    && !(AllParsedOptionsIgnored(o, p) && p.starlark == map[])
    && (forall s | s in p.starlark ::
          ParseLabel(s).Some? && ParseLabel(s).value in o.starlark
          && o.starlark[ParseLabel(s).value] == p.starlark[s])
  }

  /** A configuration built by applying a parse result matches that parse result. */
  lemma MatchesAfterApply(o: Options, p: ParsingResult)
    requires ApplyParsingResult(o, p).Success?
    requires forall k, f | k in p.explicit && k in o.fragments && f in p.explicit[k] :: f in o.fragments[k]
    requires !(AllParsedOptionsIgnored(o, p) && p.starlark == map[])
    ensures Matches(ApplyParsingResult(o, p).value, p)
  {
    var r := ApplyParsingResult(o, p).value;
    assert AllParsedOptionsIgnored(r, p) == AllParsedOptionsIgnored(o, p);
    forall k, f | k in p.explicit && k in r.fragments && f in p.explicit[k]
      ensures FieldValue(r.fragments[k], f) == p.explicit[k][f]
    {
      assert f in o.fragments[k];
    }
  }

  /** Applying a parse result never adds a fragment kind, so a parse of absent kinds changes no fragment. */
  lemma ApplyIgnoresAbsentFragments(o: Options, p: ParsingResult)
    requires ApplyParsingResult(o, p).Success?
    requires forall k | k in p.explicit :: k !in o.fragments
    ensures ApplyParsingResult(o, p).value.fragments == o.fragments
  {
  }
}
