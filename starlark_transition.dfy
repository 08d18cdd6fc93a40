/**
 * Starlark-defined configuration transitions: the transition tree and its
 * visit order, the per-definition event buffers and their replay, the
 * changed-setting collection and the validation pass run after a
 * (possibly composed) transition has produced its output configurations.
 */
module StarlarkTransitions {
  import opened Wrappers
  import opened Labels
  import Config

  /** Outputs carrying this prefix name native options, which are checked elsewhere. */
  const COMMAND_LINE_OPTION_PREFIX: string := "//command_line_option:"

  const EVENT_ERRORS_MESSAGE: string := "Errors encountered while applying Starlark transition"

  // ------------------------------------------------------------ events

  datatype EventKind = Error | Warning | Info | Debug

  datatype Event = Event(kind: EventKind, message: string)

  /** The stored-event handler's error flag: some buffered event is an error. */
  predicate HasErrorEvent(events: seq<Event>) {
    exists i | 0 <= i < |events| :: events[i].kind == Error
  }

  /** The external handler events are replayed on; only its log is modelled. */
  class EventSink {
    var replayed: seq<Event>

    constructor ()
      ensures replayed == []
    {
      replayed := [];
    }
  }

  // ------------------------------------------------------------ outputs

  predicate StartsWith(s: string, prefix: string) {
    |prefix| <= |s| && s[..|prefix|] == prefix
  }

  predicate IsNativeOption(output: string) {
    StartsWith(output, COMMAND_LINE_OPTION_PREFIX)
  }

  /**
   * The declared outputs of a Starlark transition. Every output that does
   * not name a native option is taken to be an absolute label, so the
   * unchecked label parse of getChangedStarlarkSettings always succeeds;
   * its exception on a malformed label is outside this model.
   */
  predicate ValidOutputs(outputs: seq<string>) {
    forall o | o in outputs && !IsNativeOption(o) :: ParseLabel(o).Some?
  }

  type Outputs = s: seq<string> | ValidOutputs(s) witness []

  /** The outputs that are not native options, in declaration order. */
  function NonNativeOutputs(outputs: seq<string>): (r: seq<string>)
    ensures forall o :: o in r <==> o in outputs && !IsNativeOption(o)
    ensures |r| <= |outputs|
    ensures (forall o | o in outputs :: !IsNativeOption(o)) ==> r == outputs
  {
    if outputs == [] then []
    else if IsNativeOption(outputs[0]) then NonNativeOutputs(outputs[1..])
    else [outputs[0]] + NonNativeOutputs(outputs[1..])
  }

  /**
   * The filter keeps order and duplicates: filtering a concatenation is
   * concatenating the filtered parts, so each kept output stays in place
   * relative to the others.
   */
  lemma {:induction false} NonNativeOutputsConcat(a: seq<string>, b: seq<string>)
    ensures NonNativeOutputs(a + b) == NonNativeOutputs(a) + NonNativeOutputs(b)
  {
    if a == [] {
      assert a + b == b;
    } else {
      assert (a + b)[0] == a[0];
      assert (a + b)[1..] == a[1..] + b;
      NonNativeOutputsConcat(a[1..], b);
    }
  }

  /**
   * getChangedStarlarkSettings: the outputs that are not native options,
   * parsed as labels; printing them back gives those outputs in order.
   */
  function ChangedSettings(outputs: Outputs): (r: seq<Label>)
    ensures |r| == |NonNativeOutputs(outputs)|
    ensures forall i | 0 <= i < |r| :: WellFormed(r[i]) && ToString(r[i]) == NonNativeOutputs(outputs)[i]
  {
    if outputs == [] then []
    else
      assert forall o | o in outputs[1..] :: o in outputs;
      var tail: Outputs := outputs[1..];
      var rest := ChangedSettings(tail);
      if IsNativeOption(outputs[0]) then rest
      else
        var l := ParseLabel(outputs[0]).value;
        PrintedCons(l, outputs[0], rest, NonNativeOutputs(tail));
        [l] + rest
  }

  /** Consing a label printed as `o` onto labels printed as `printed` gives labels printed as their cons. */
  lemma PrintedCons(l: Label, o: string, rest: seq<Label>, printed: seq<string>)
    requires WellFormed(l) && ToString(l) == o
    requires |rest| == |printed| && forall i | 0 <= i < |rest| :: WellFormed(rest[i]) && ToString(rest[i]) == printed[i]
    ensures var r := [l] + rest;
      forall i | 0 <= i < |r| :: WellFormed(r[i]) && ToString(r[i]) == ([o] + printed)[i]
  {
  }

  // ------------------------------------------------------------ transitions

  /**
   * A StarlarkDefinedConfigTransition: its declared outputs and the stored
   * event handler filled while its implementation ran.
   */
  class StarlarkDefinition {
    const outputs: Outputs
    var events: seq<Event>

    constructor (outputs: Outputs, events: seq<Event>)
      ensures this.outputs == outputs && this.events == events
    {
      this.outputs := outputs;
      this.events := events;
    }
  }

  /** The tree of a possibly composed transition. */
  datatype Transition =
    | Identity
    | Native(name: string)
    | Starlark(leaf: StarlarkTransition)
    | Compose(first: Transition, second: Transition)

  /** A leaf transition wrapping a Starlark definition. */
  class StarlarkTransition {
    const definition: StarlarkDefinition

    constructor (definition: StarlarkDefinition)
      ensures this.definition == definition
    {
      this.definition := definition;
    }

    predicate HasErrors()
      reads definition
    {
      HasErrorEvent(definition.events)
    }

    /** Pushes every buffered event to the sink, then empties the buffer. */
    method ReplayOn(sink: EventSink)
      modifies sink, definition
      ensures sink.replayed == old(sink.replayed) + old(definition.events)
      ensures definition.events == []
      ensures !HasErrors()
    {
      sink.replayed := sink.replayed + definition.events;
      definition.events := [];
    }

    /**
     * Equality against any transition: itself, or another Starlark leaf
     * wrapping the same definition; never a transition of another kind.
     */
    function Equals(other: Transition): (r: bool)
      ensures other == Starlark(this) ==> r
      ensures !other.Starlark? ==> !r
      ensures other.Starlark? ==> (r <==> other.leaf.definition == definition)
    {
      if other == Starlark(this) then true
      else if other.Starlark? then other.leaf.definition == definition
      else false
    }
  }

  /** Starlark leaf equality is symmetric and transitive. */
  lemma EqualsIsEquivalence(a: StarlarkTransition, b: StarlarkTransition, c: StarlarkTransition)
    ensures a.Equals(Starlark(b)) == b.Equals(Starlark(a))
    ensures a.Equals(Starlark(b)) && b.Equals(Starlark(c)) ==> a.Equals(Starlark(c))
  {
  }

  /**
   * The Starlark leaves a visitor reaches, in visit order: identity and
   * native leaves are skipped, a composition visits its first part, then its
   * second.
   */
  function Leaves(t: Transition): seq<StarlarkTransition> {
    match t
    case Identity => []
    case Native(_) => []
    case Starlark(leaf) => [leaf]
    case Compose(first, second) => Leaves(first) + Leaves(second)
  }

  function Definitions(leaves: seq<StarlarkTransition>): set<StarlarkDefinition> {
    set i | 0 <= i < |leaves| :: leaves[i].definition
  }

  /** The buffered events of every definition reached from the leaves. */
  function Snapshot(leaves: seq<StarlarkTransition>): (m: map<StarlarkDefinition, seq<Event>>)
    reads Definitions(leaves)
    ensures m.Keys == Definitions(leaves)
  {
    map d | d in Definitions(leaves) :: d.events
  }

  // ------------------------------------------------------------ errors

  datatype TransitionError =
    | EventErrors
    | LookupFailed(lookupMessage: string)
    | NotABuildSetting(setting: Label)
    | ConversionFailed(conversionMessage: string)
  {
    function Message(): string {
      match this
      case EventErrors => EVENT_ERRORS_MESSAGE
      case LookupFailed(m) => m
      case NotABuildSetting(l) => "attempting to transition on '" + ToString(l) + "' which is not a build setting"
      case ConversionFailed(m) => m
    }
  }

  // ------------------------------------------------------------ event replay

  datatype ReplayState = ReplayState(buffers: map<StarlarkDefinition, seq<Event>>, log: seq<Event>)

  datatype Replayed = Replayed(state: ReplayState, outcome: Outcome<TransitionError>)

  predicate Covers(leaves: seq<StarlarkTransition>, buffers: map<StarlarkDefinition, seq<Event>>) {
    forall i | 0 <= i < |leaves| :: leaves[i].definition in buffers
  }

  /**
   * replayEvents on a snapshot of the buffers: for each leaf in visit order
   * the error flag is read, the events are replayed and cleared, and the
   * walk stops with an error at the first leaf that had errors.
   */
  function ReplaySpec(leaves: seq<StarlarkTransition>, s: ReplayState): Replayed
    requires Covers(leaves, s.buffers)
  {
    if leaves == [] then Replayed(s, Pass)
    else
      var d := leaves[0].definition;
      var events := s.buffers[d];
      var next := ReplayState(s.buffers[d := []], s.log + events);
      if HasErrorEvent(events) then Replayed(next, Fail(EventErrors))
      else ReplaySpec(leaves[1..], next)
  }

  /** Replay fails exactly when some reached definition buffered an error. */
  lemma {:induction false} ReplayFailsIffSomeError(leaves: seq<StarlarkTransition>, s: ReplayState)
    requires Covers(leaves, s.buffers)
    ensures ReplaySpec(leaves, s).outcome.Fail?
        <==> exists i | 0 <= i < |leaves| :: HasErrorEvent(s.buffers[leaves[i].definition])
    ensures ReplaySpec(leaves, s).outcome.Fail? ==> ReplaySpec(leaves, s).outcome.error == EventErrors
  {
    if leaves != [] {
      var d := leaves[0].definition;
      var next := ReplayState(s.buffers[d := []], s.log + s.buffers[d]);
      if !HasErrorEvent(s.buffers[d]) {
        ReplayFailsIffSomeError(leaves[1..], next);
        forall i | 0 <= i < |leaves[1..]|
          ensures HasErrorEvent(next.buffers[leaves[1..][i].definition])
              <==> HasErrorEvent(s.buffers[leaves[i + 1].definition])
        {
          assert leaves[1..][i] == leaves[i + 1];
        }
        if exists i | 0 <= i < |leaves| :: HasErrorEvent(s.buffers[leaves[i].definition]) {
          var i :| 0 <= i < |leaves| && HasErrorEvent(s.buffers[leaves[i].definition]);
          assert i != 0;
          assert HasErrorEvent(next.buffers[leaves[1..][i - 1].definition]);
        }
      } else {
        assert HasErrorEvent(s.buffers[leaves[0].definition]);
      }
    }
  }

  /** A successful replay empties every reached buffer and leaves the others alone. */
  lemma {:induction false} ReplaySuccessClears(leaves: seq<StarlarkTransition>, s: ReplayState)
    requires Covers(leaves, s.buffers)
    requires ReplaySpec(leaves, s).outcome.Pass?
    ensures ReplaySpec(leaves, s).state.buffers.Keys == s.buffers.Keys
    ensures forall i | 0 <= i < |leaves| :: ReplaySpec(leaves, s).state.buffers[leaves[i].definition] == []
    ensures forall d | d in s.buffers && d !in Definitions(leaves) ::
      ReplaySpec(leaves, s).state.buffers[d] == s.buffers[d]
  {
    if leaves != [] {
      var d := leaves[0].definition;
      var next := ReplayState(s.buffers[d := []], s.log + s.buffers[d]);
      ReplaySuccessClears(leaves[1..], next);
      var r := ReplaySpec(leaves, s);
      assert r == ReplaySpec(leaves[1..], next);
      forall i | 0 <= i < |leaves| ensures r.state.buffers[leaves[i].definition] == [] {
        if i > 0 {
          assert leaves[1..][i - 1] == leaves[i];
        } else if d !in Definitions(leaves[1..]) {
          assert r.state.buffers[d] == next.buffers[d];
        } else {
          var j :| 0 <= j < |leaves[1..]| && leaves[1..][j].definition == d;
          assert r.state.buffers[leaves[1..][j].definition] == [];
        }
      }
      forall e | e in s.buffers && e !in Definitions(leaves) ensures r.state.buffers[e] == s.buffers[e] {
        assert e != leaves[0].definition;
        forall j | 0 <= j < |leaves[1..]| ensures leaves[1..][j].definition != e {
          assert leaves[1..][j] == leaves[j + 1];
        }
      }
    }
  }

  /**
   * Leaves after the first one whose buffer holds an error are not replayed:
   * the walk over all leaves ends exactly as the walk that stops there.
   */
  lemma {:induction false} ReplayStopsAtFirstError(leaves: seq<StarlarkTransition>, s: ReplayState, k: nat)
    requires Covers(leaves, s.buffers)
    requires k < |leaves| && HasErrorEvent(s.buffers[leaves[k].definition])
    requires forall j | 0 <= j < k :: !HasErrorEvent(s.buffers[leaves[j].definition])
    ensures ReplaySpec(leaves, s) == ReplaySpec(leaves[..k + 1], s)
    ensures ReplaySpec(leaves, s).outcome == Fail(EventErrors)
  {
    var d := leaves[0].definition;
    var next := ReplayState(s.buffers[d := []], s.log + s.buffers[d]);
    if k > 0 {
      assert leaves[..k + 1][0] == leaves[0];
      assert leaves[..k + 1][1..] == leaves[1..][..k];
      assert leaves[1..][k - 1] == leaves[k];
      assert leaves[k].definition != d;
      forall j | 0 <= j < k - 1 ensures !HasErrorEvent(next.buffers[leaves[1..][j].definition]) {
        assert leaves[1..][j] == leaves[j + 1];
        if leaves[j + 1].definition == d {
          assert next.buffers[d] == [];
        }
      }
      ReplayStopsAtFirstError(leaves[1..], next, k - 1);
    }
  }

  /** Without errors and with one leaf per definition, the sink receives every buffer in visit order. */
  function BufferedInOrder(leaves: seq<StarlarkTransition>, buffers: map<StarlarkDefinition, seq<Event>>): seq<Event>
    requires Covers(leaves, buffers)
  {
    if leaves == [] then [] else buffers[leaves[0].definition] + BufferedInOrder(leaves[1..], buffers)
  }

  predicate DistinctDefinitions(leaves: seq<StarlarkTransition>) {
    forall i, j | 0 <= i < j < |leaves| :: leaves[i].definition != leaves[j].definition
  }

  lemma {:induction false} ReplayLogsInVisitOrder(leaves: seq<StarlarkTransition>, s: ReplayState)
    requires Covers(leaves, s.buffers)
    requires DistinctDefinitions(leaves)
    requires forall i | 0 <= i < |leaves| :: !HasErrorEvent(s.buffers[leaves[i].definition])
    ensures ReplaySpec(leaves, s).outcome.Pass?
    ensures ReplaySpec(leaves, s).state.log == s.log + BufferedInOrder(leaves, s.buffers)
  {
    if leaves != [] {
      var d := leaves[0].definition;
      var next := ReplayState(s.buffers[d := []], s.log + s.buffers[d]);
      forall i | 0 <= i < |leaves[1..]| ensures leaves[1..][i].definition != d {
        assert leaves[1..][i] == leaves[i + 1];
      }
      BufferedUnchanged(leaves[1..], s.buffers, d);
      ReplayLogsInVisitOrder(leaves[1..], next);
      assert BufferedInOrder(leaves[1..], next.buffers) == BufferedInOrder(leaves[1..], s.buffers);
    }
  }

  lemma {:induction false} BufferedUnchanged(leaves: seq<StarlarkTransition>, buffers: map<StarlarkDefinition, seq<Event>>, d: StarlarkDefinition)
    requires Covers(leaves, buffers)
    requires forall i | 0 <= i < |leaves| :: leaves[i].definition != d
    ensures BufferedInOrder(leaves, buffers[d := []]) == BufferedInOrder(leaves, buffers)
  {
    if leaves != [] {
      BufferedUnchanged(leaves[1..], buffers, d);
    }
  }

  /**
   * replayEvents: visits the Starlark leaves in order, reading each error
   * flag before replaying and clearing the buffer, and stops at the first
   * leaf that had errors.
   */
  method ReplayEvents(sink: EventSink, root: Transition) returns (r: Outcome<TransitionError>)
    modifies sink, Definitions(Leaves(root))
    ensures ReplaySpec(Leaves(root), ReplayState(old(Snapshot(Leaves(root))), old(sink.replayed)))
         == Replayed(ReplayState(Snapshot(Leaves(root)), sink.replayed), r)
  {
    var leaves := Leaves(root);
    ghost var start := ReplayState(Snapshot(leaves), sink.replayed);
    ghost var buffers := start.buffers;
    SuffixCovered(leaves, 0, buffers);
    var i := 0;
    while i < |leaves|
      invariant 0 <= i <= |leaves|
      invariant buffers.Keys == Definitions(leaves)
      invariant forall d | d in buffers :: d.events == buffers[d]
      invariant Covers(leaves[i..], buffers)
      invariant ReplaySpec(leaves, start) == ReplaySpec(leaves[i..], ReplayState(buffers, sink.replayed))
    {
      var t := leaves[i];
      ghost var before := ReplayState(buffers, sink.replayed);
      assert t.definition in Definitions(leaves);
      var hasErrors := t.HasErrors();
      t.ReplayOn(sink);
      buffers := buffers[t.definition := []];
      if hasErrors {
        ReplayStepFails(leaves, i, before);
        SnapshotIs(leaves, buffers);
        return Fail(EventErrors);
      }
      ReplayStepPasses(leaves, i, before);
      i := i + 1;
    }
    SnapshotIs(leaves, buffers);
    return Pass;
  }

  lemma SnapshotIs(leaves: seq<StarlarkTransition>, buffers: map<StarlarkDefinition, seq<Event>>)
    requires buffers.Keys == Definitions(leaves)
    requires forall d | d in buffers :: d.events == buffers[d]
    ensures Snapshot(leaves) == buffers
  {
  }

  lemma SuffixCovered(leaves: seq<StarlarkTransition>, i: nat, buffers: map<StarlarkDefinition, seq<Event>>)
    requires i <= |leaves| && buffers.Keys == Definitions(leaves)
    ensures Covers(leaves[i..], buffers)
  {
    forall j | 0 <= j < |leaves[i..]| ensures leaves[i..][j].definition in buffers {
      assert leaves[i..][j] == leaves[i + j];
    }
  }

  /** One step of the replay walk, at the leaf with index `i`, whose buffer holds an error. */
  lemma ReplayStepFails(leaves: seq<StarlarkTransition>, i: nat, s: ReplayState)
    requires i < |leaves| && Covers(leaves[i..], s.buffers)
    requires HasErrorEvent(s.buffers[leaves[i].definition])
    ensures var d := leaves[i].definition;
      ReplaySpec(leaves[i..], s) == Replayed(ReplayState(s.buffers[d := []], s.log + s.buffers[d]), Fail(EventErrors))
  {
    assert leaves[i..][0] == leaves[i];
  }

  /** One step of the replay walk, at the leaf with index `i`, whose buffer holds no error. */
  lemma ReplayStepPasses(leaves: seq<StarlarkTransition>, i: nat, s: ReplayState)
    requires i < |leaves| && Covers(leaves[i..], s.buffers)
    requires !HasErrorEvent(s.buffers[leaves[i].definition])
    ensures var d := leaves[i].definition;
      var next := ReplayState(s.buffers[d := []], s.log + s.buffers[d]);
      && Covers(leaves[i + 1..], next.buffers)
      && ReplaySpec(leaves[i..], s) == ReplaySpec(leaves[i + 1..], next)
  {
    assert leaves[i..][0] == leaves[i];
    assert leaves[i..][1..] == leaves[i + 1..];
  }

  // ------------------------------------------------------------ build settings

  datatype SettingType = SettingType(name: string)

  datatype RuleClass = RuleClass(buildSetting: Option<SettingType>)

  datatype Target = Target(associatedRule: Option<RuleClass>)

  /** A loaded package; a failed target lookup carries its own message. */
  datatype Package = Package(getTarget: string -> Result<Target, string>)

  /** Every changed setting of the leaves, leaf by leaf in visit order. */
  function AllChangedSettings(leaves: seq<StarlarkTransition>): seq<Label> {
    if leaves == [] then [] else ChangedSettings(leaves[0].definition.outputs) + AllChangedSettings(leaves[1..])
  }

  /** The package keys of the changed settings. */
  function PackageKeys(settings: seq<Label>): set<PackageId> {
    set i | 0 <= i < |settings| :: settings[i].PackageIdentifier()
  }

  /** The declared type of one changed setting, or why it has none. */
  function ResolveSetting(packages: map<PackageId, Package>, setting: Label): (r: Result<SettingType, TransitionError>)
    requires setting.PackageIdentifier() in packages
    ensures packages[setting.PackageIdentifier()].getTarget(setting.name).Failure? ==>
      r == Failure(LookupFailed(packages[setting.PackageIdentifier()].getTarget(setting.name).error))
    ensures r.Failure? && r.error.NotABuildSetting? ==>
      r.error.Message() == "attempting to transition on '" + ToString(setting) + "' which is not a build setting"
    ensures r.Success? <==>
      var t := packages[setting.PackageIdentifier()].getTarget(setting.name);
      t.Success? && t.value.associatedRule.Some? && t.value.associatedRule.value.buildSetting.Some?
    ensures var t := packages[setting.PackageIdentifier()].getTarget(setting.name);
      t.Success? && (t.value.associatedRule.None? || t.value.associatedRule.value.buildSetting.None?) ==>
        r == Failure(NotABuildSetting(setting))
    ensures var t := packages[setting.PackageIdentifier()].getTarget(setting.name);
      r.Success? ==> t.Success? && r.value == t.value.associatedRule.value.buildSetting.value
  {
    match packages[setting.PackageIdentifier()].getTarget(setting.name)
    case Failure(m) => Failure(LookupFailed(m))
    case Success(target) =>
      if target.associatedRule.None? || target.associatedRule.value.buildSetting.None? then
        Failure(NotABuildSetting(setting))
      else
        Success(target.associatedRule.value.buildSetting.value)
  }

  /**
   * The visitor filling the setting-to-type map: each changed setting in
   * turn is resolved and put into the map; the first failure ends the walk.
   */
  function CollectSpec(settings: seq<Label>, packages: map<PackageId, Package>, acc: map<Label, SettingType>)
    : Result<map<Label, SettingType>, TransitionError>
    requires PackageKeys(settings) <= packages.Keys
  {
    if settings == [] then Success(acc)
    else
      assert settings[0].PackageIdentifier() in PackageKeys(settings);
      PackageKeysOfTail(settings);
      match ResolveSetting(packages, settings[0])
      case Failure(e) => Failure(e)
      case Success(ty) => CollectSpec(settings[1..], packages, acc[settings[0] := ty])
  }

  /** Collection succeeds exactly when every setting resolves. */
  lemma {:induction false} CollectSucceedsIffAllResolve(settings: seq<Label>, packages: map<PackageId, Package>,
                                                        acc: map<Label, SettingType>)
    requires PackageKeys(settings) <= packages.Keys
    ensures CollectSpec(settings, packages, acc).Success?
        <==> forall i | 0 <= i < |settings| :: ResolveSetting(packages, settings[i]).Success?
  {
    if settings != [] {
      assert settings[0].PackageIdentifier() in PackageKeys(settings);
      PackageKeysOfTail(settings);
      var rh := ResolveSetting(packages, settings[0]);
      if rh.Success? {
        CollectSucceedsIffAllResolve(settings[1..], packages, acc[settings[0] := rh.value]);
        assert forall i | 1 <= i < |settings| :: settings[i] == settings[1..][i - 1];
      } else {
        assert !ResolveSetting(packages, settings[0]).Success?;
      }
    }
  }

  /**
   * A successful collection holds every setting with its resolved type, on
   * top of the entries it started from.
   */
  lemma CollectSucceeds(settings: seq<Label>, packages: map<PackageId, Package>, acc: map<Label, SettingType>)
    requires PackageKeys(settings) <= packages.Keys
    requires CollectSpec(settings, packages, acc).Success?
    ensures forall i | 0 <= i < |settings| :: ResolveSetting(packages, settings[i]).Success?
    ensures var m := CollectSpec(settings, packages, acc).value;
      && (forall l :: l in m <==> l in acc || l in settings)
      && (forall i | 0 <= i < |settings| :: m[settings[i]] == ResolveSetting(packages, settings[i]).value)
      && (forall l | l in acc && l !in settings :: m[l] == acc[l])
  {
    CollectSucceedsIffAllResolve(settings, packages, acc);
    CollectKeys(settings, packages, acc);
    CollectValues(settings, packages, acc);
  }

  lemma {:induction false} CollectKeys(settings: seq<Label>, packages: map<PackageId, Package>, acc: map<Label, SettingType>)
    requires PackageKeys(settings) <= packages.Keys
    requires CollectSpec(settings, packages, acc).Success?
    ensures forall l :: l in CollectSpec(settings, packages, acc).value <==> l in acc || l in settings
  {
    if settings != [] {
      var head := settings[0];
      assert head.PackageIdentifier() in PackageKeys(settings);
      PackageKeysOfTail(settings);
      assert ResolveSetting(packages, head).Success?;
      var acc' := acc[head := ResolveSetting(packages, head).value];
      CollectKeys(settings[1..], packages, acc');
      assert forall l :: l in settings <==> l == head || l in settings[1..];
    }
  }

  lemma CollectValues(settings: seq<Label>, packages: map<PackageId, Package>, acc: map<Label, SettingType>)
    requires PackageKeys(settings) <= packages.Keys
    requires CollectSpec(settings, packages, acc).Success?
    ensures var m := CollectSpec(settings, packages, acc).value;
      && (forall i | 0 <= i < |settings| :: settings[i] in m && ResolveSetting(packages, settings[i]) == Success(m[settings[i]]))
      && (forall l | l in acc && l !in settings :: l in m && m[l] == acc[l])
  {
    forall i | 0 <= i < |settings|
      ensures var m := CollectSpec(settings, packages, acc).value;
        settings[i] in m && ResolveSetting(packages, settings[i]) == Success(m[settings[i]])
    {
      CollectValueAt(settings, packages, acc, i);
    }
    forall l | l in acc && l !in settings
      ensures var m := CollectSpec(settings, packages, acc).value; l in m && m[l] == acc[l]
    {
      CollectKeepsEntry(settings, packages, acc, l);
    }
  }

  /** The entry of a collected setting is its resolved type (a later duplicate resolves alike). */
  lemma {:induction false} CollectValueAt(settings: seq<Label>, packages: map<PackageId, Package>,
                                          acc: map<Label, SettingType>, i: nat)
    requires PackageKeys(settings) <= packages.Keys
    requires CollectSpec(settings, packages, acc).Success?
    requires i < |settings|
    ensures var m := CollectSpec(settings, packages, acc).value;
      settings[i] in m && ResolveSetting(packages, settings[i]) == Success(m[settings[i]])
  {
    var head := settings[0];
    assert head.PackageIdentifier() in PackageKeys(settings);
    PackageKeysOfTail(settings);
    assert ResolveSetting(packages, head).Success?;
    var acc' := acc[head := ResolveSetting(packages, head).value];
    assert CollectSpec(settings, packages, acc) == CollectSpec(settings[1..], packages, acc');
    if i > 0 {
      assert settings[1..][i - 1] == settings[i];
      CollectValueAt(settings[1..], packages, acc', i - 1);
    } else if j :| 0 <= j < |settings[1..]| && settings[1..][j] == head {
      CollectValueAt(settings[1..], packages, acc', j);
    } else {
      CollectKeepsEntry(settings[1..], packages, acc', head);
    }
  }

  /** An entry already present for a label the settings do not name survives collection. */
  lemma {:induction false} CollectKeepsEntry(settings: seq<Label>, packages: map<PackageId, Package>,
                                             acc: map<Label, SettingType>, l: Label)
    requires PackageKeys(settings) <= packages.Keys
    requires CollectSpec(settings, packages, acc).Success?
    requires l in acc && l !in settings
    ensures var m := CollectSpec(settings, packages, acc).value; l in m && m[l] == acc[l]
  {
    if settings != [] {
      var head := settings[0];
      assert head.PackageIdentifier() in PackageKeys(settings);
      PackageKeysOfTail(settings);
      assert ResolveSetting(packages, head).Success?;
      var acc' := acc[head := ResolveSetting(packages, head).value];
      assert l != head && l !in settings[1..];
      CollectKeepsEntry(settings[1..], packages, acc', l);
    }
  }

  /** A failed collection reports the failure of the first setting that does not resolve. */
  lemma {:induction false} CollectFailsAtFirst(settings: seq<Label>, packages: map<PackageId, Package>,
                                               acc: map<Label, SettingType>, k: nat)
    requires PackageKeys(settings) <= packages.Keys
    requires k < |settings| && ResolveSetting(packages, settings[k]).Failure?
    requires forall j | 0 <= j < k :: ResolveSetting(packages, settings[j]).Success?
    ensures CollectSpec(settings, packages, acc) == Failure(ResolveSetting(packages, settings[k]).error)
  {
    assert settings[0].PackageIdentifier() in PackageKeys(settings);
    if k > 0 {
      PackageKeysOfTail(settings);
      forall j | 0 <= j < k - 1 ensures ResolveSetting(packages, settings[1..][j]).Success? {
        assert settings[1..][j] == settings[j + 1];
      }
      assert settings[1..][k - 1] == settings[k];
      CollectFailsAtFirst(settings[1..], packages, acc[settings[0] := ResolveSetting(packages, settings[0]).value], k - 1);
    }
  }

  lemma PackageKeysOfTail(settings: seq<Label>)
    requires settings != []
    ensures PackageKeys(settings) == {settings[0].PackageIdentifier()} + PackageKeys(settings[1..])
  {
    assert settings == [settings[0]] + settings[1..];
    PackageKeysOfConcat([settings[0]], settings[1..]);
  }

  /** Collecting over two runs of settings is collecting over the first, then over the second. */
  lemma {:induction false} CollectSpecConcat(a: seq<Label>, b: seq<Label>, packages: map<PackageId, Package>,
                                             acc: map<Label, SettingType>)
    requires PackageKeys(a + b) <= packages.Keys
    ensures PackageKeys(a) <= packages.Keys && PackageKeys(b) <= packages.Keys
    ensures CollectSpec(a + b, packages, acc)
         == match CollectSpec(a, packages, acc)
            case Failure(e) => Failure(e)
            case Success(m) => CollectSpec(b, packages, m)
  {
    PackageKeysOfConcat(a, b);
    if a != [] {
      assert (a + b)[0] == a[0];
      assert (a + b)[1..] == a[1..] + b;
      PackageKeysOfTail(a);
      PackageKeysOfTail(a + b);
      match ResolveSetting(packages, a[0])
      case Failure(e) =>
      case Success(ty) => CollectSpecConcat(a[1..], b, packages, acc[a[0] := ty]);
    } else {
      assert a + b == b;
    }
  }

  /** The visitor callback of the collect step: the changed settings of one leaf, one by one. */
  method CollectLeafSettings(changed: seq<Label>, packages: map<PackageId, Package>, types: map<Label, SettingType>)
    returns (r: Result<map<Label, SettingType>, TransitionError>)
    requires PackageKeys(changed) <= packages.Keys
    ensures r == CollectSpec(changed, packages, types)
  {
    var acc := types;
    var j := 0;
    while j < |changed|
      invariant 0 <= j <= |changed|
      invariant PackageKeys(changed[j..]) <= packages.Keys
      invariant CollectSpec(changed, packages, types) == CollectSpec(changed[j..], packages, acc)
    {
      PackageKeysOfTail(changed[j..]);
      assert changed[j..][0] == changed[j];
      assert changed[j..][1..] == changed[j + 1..];
      var resolved := ResolveSetting(packages, changed[j]);
      if resolved.Failure? {
        return Failure(resolved.error);
      }
      acc := acc[changed[j] := resolved.value];
      j := j + 1;
    }
    return Success(acc);
  }

  lemma AllChangedSettingsUnfold(leaves: seq<StarlarkTransition>, i: nat)
    requires i < |leaves|
    ensures AllChangedSettings(leaves[i..])
         == ChangedSettings(leaves[i].definition.outputs) + AllChangedSettings(leaves[i + 1..])
  {
    assert leaves[i..][0] == leaves[i];
    assert leaves[i..][1..] == leaves[i + 1..];
  }

  /** The collect step of validate: the visitor over the leaves. */
  method CollectSettingTypes(root: Transition, packages: map<PackageId, Package>)
    returns (r: Result<map<Label, SettingType>, TransitionError>)
    requires PackageKeys(AllChangedSettings(Leaves(root))) <= packages.Keys
    ensures r == CollectSpec(AllChangedSettings(Leaves(root)), packages, map[])
  {
    var leaves := Leaves(root);
    var types: map<Label, SettingType> := map[];
    var i := 0;
    while i < |leaves|
      invariant 0 <= i <= |leaves|
      invariant PackageKeys(AllChangedSettings(leaves[i..])) <= packages.Keys
      invariant CollectSpec(AllChangedSettings(leaves), packages, map[])
             == CollectSpec(AllChangedSettings(leaves[i..]), packages, types)
    {
      var changed := ChangedSettings(leaves[i].definition.outputs);
      AllChangedSettingsUnfold(leaves, i);
      CollectSpecConcat(changed, AllChangedSettings(leaves[i + 1..]), packages, types);
      var collected := CollectLeafSettings(changed, packages, types);
      if collected.Failure? {
        return Failure(collected.error);
      }
      types := collected.value;
      i := i + 1;
    }
    assert leaves[i..] == [];
    r := Success(types);
  }

  /** The visitor callback of getBuildSettingPackageKeys: adds the package key of each changed setting. */
  method AddPackageKeys(keys: set<PackageId>, changed: seq<Label>) returns (r: set<PackageId>)
    ensures r == keys + PackageKeys(changed)
  {
    r := keys;
    var j := 0;
    while j < |changed|
      invariant 0 <= j <= |changed|
      invariant r + PackageKeys(changed[j..]) == keys + PackageKeys(changed)
    {
      PackageKeysOfTail(changed[j..]);
      assert changed[j..][0] == changed[j];
      assert changed[j..][1..] == changed[j + 1..];
      r := r + {changed[j].PackageIdentifier()};
      j := j + 1;
    }
    assert changed[j..] == [];
  }

  /**
   * getBuildSettingPackageKeys: the package key of every changed setting of
   * every leaf, accumulated into a set.
   */
  method BuildSettingPackageKeys(root: Transition) returns (keys: set<PackageId>)
    ensures keys == PackageKeys(AllChangedSettings(Leaves(root)))
  {
    var leaves := Leaves(root);
    keys := {};
    KeysBeforeEnds(leaves);
    var i := 0;
    while i < |leaves|
      invariant 0 <= i <= |leaves|
      invariant keys == KeysBefore(leaves, i)
    {
      var changed := ChangedSettings(leaves[i].definition.outputs);
      KeysBeforeStep(leaves, i);
      keys := AddPackageKeys(keys, changed);
      i := i + 1;
    }
  }

  /** The package keys of the changed settings of the leaves before position i. */
  ghost function KeysBefore(leaves: seq<StarlarkTransition>, i: nat): set<PackageId>
    requires i <= |leaves|
  {
    PackageKeys(AllChangedSettings(leaves[..i]))
  }

  lemma KeysBeforeEnds(leaves: seq<StarlarkTransition>)
    ensures KeysBefore(leaves, 0) == {}
    ensures KeysBefore(leaves, |leaves|) == PackageKeys(AllChangedSettings(leaves))
  {
    assert leaves[..0] == [];
    assert leaves[..|leaves|] == leaves;
  }

  /** The keys before the next leaf, plus that leaf's keys, are the keys up to and including it. */
  lemma KeysBeforeStep(leaves: seq<StarlarkTransition>, i: nat)
    requires i < |leaves|
    ensures KeysBefore(leaves, i + 1) == KeysBefore(leaves, i) + PackageKeys(ChangedSettings(leaves[i].definition.outputs))
  {
    assert leaves[..i + 1] == leaves[..i] + [leaves[i]];
    AllChangedSettingsSnoc(leaves[..i], leaves[i]);
    PackageKeysOfConcat(AllChangedSettings(leaves[..i]), ChangedSettings(leaves[i].definition.outputs));
  }

  lemma AllChangedSettingsSnoc(prefix: seq<StarlarkTransition>, leaf: StarlarkTransition)
    ensures AllChangedSettings(prefix + [leaf]) == AllChangedSettings(prefix) + ChangedSettings(leaf.definition.outputs)
  {
    var changed := ChangedSettings(leaf.definition.outputs);
    AllChangedSettingsConcat(prefix, [leaf]);
    assert AllChangedSettings([leaf]) == changed + AllChangedSettings([]);
    assert changed + [] == changed;
  }

  lemma {:induction false} AllChangedSettingsConcat(a: seq<StarlarkTransition>, b: seq<StarlarkTransition>)
    ensures AllChangedSettings(a + b) == AllChangedSettings(a) + AllChangedSettings(b)
  {
    if a == [] {
      assert a + b == b;
    } else {
      var head := ChangedSettings(a[0].definition.outputs);
      assert (a + b)[0] == a[0];
      assert (a + b)[1..] == a[1..] + b;
      AllChangedSettingsConcat(a[1..], b);
      calc {
        AllChangedSettings(a + b);
        head + AllChangedSettings(a[1..] + b);
        head + (AllChangedSettings(a[1..]) + AllChangedSettings(b));
        (head + AllChangedSettings(a[1..])) + AllChangedSettings(b);
        AllChangedSettings(a) + AllChangedSettings(b);
      }
    }
  }


  lemma PackageKeysOfConcat(a: seq<Label>, b: seq<Label>)
    ensures PackageKeys(a + b) == PackageKeys(a) + PackageKeys(b)
  {
    forall p | p in PackageKeys(a) ensures p in PackageKeys(a + b) {
      var i :| 0 <= i < |a| && a[i].PackageIdentifier() == p;
      assert (a + b)[i] == a[i];
    }
    forall p | p in PackageKeys(a + b) ensures p in PackageKeys(a) + PackageKeys(b) {
      var i :| 0 <= i < |a + b| && (a + b)[i].PackageIdentifier() == p;
      if i >= |a| {
        assert b[i - |a|].PackageIdentifier() == p;
      }
    }
    forall p | p in PackageKeys(b) ensures p in PackageKeys(a + b) {
      var i :| 0 <= i < |b| && b[i].PackageIdentifier() == p;
      assert (a + b)[|a| + i] == b[i];
    }
  }

  // ------------------------------------------------------------ type check

  /** A Starlark option an output configuration does not set reads as null. */
  function StarlarkValue(o: Config.Options, setting: Label): Config.Value {
    if setting in o.starlark then o.starlark[setting] else Config.Null
  }

  predicate Converts(convert: (SettingType, Config.Value, Label) -> Outcome<string>,
                     types: map<Label, SettingType>, o: Config.Options, setting: Label)
    requires setting in types
  {
    convert(types[setting], StarlarkValue(o, setting), setting).Pass?
  }

  /**
   * The type-check step of validate: every output configuration, in order,
   * against every collected setting, in the map's unspecified iteration
   * order; the first conversion failure ends the check with its message.
   */
  method CheckOutputs(toOptions: seq<Config.Options>, types: map<Label, SettingType>,
                      convert: (SettingType, Config.Value, Label) -> Outcome<string>)
    returns (r: Outcome<TransitionError>)
    ensures r.Pass? <==> forall i, l | 0 <= i < |toOptions| && l in types :: Converts(convert, types, toOptions[i], l)
    ensures r.Fail? ==> exists i, l | 0 <= i < |toOptions| && l in types ::
      && !Converts(convert, types, toOptions[i], l)
      && r.error == ConversionFailed(convert(types[l], StarlarkValue(toOptions[i], l), l).error)
      && forall j, m | 0 <= j < i && m in types :: Converts(convert, types, toOptions[j], m)
  {
    for i := 0 to |toOptions|
      invariant forall j, l | 0 <= j < i && l in types :: Converts(convert, types, toOptions[j], l)
    {
      var remaining := types.Keys;
      while remaining != {}
        invariant remaining <= types.Keys
        invariant forall l | l in types && l !in remaining :: Converts(convert, types, toOptions[i], l)
        decreases |remaining|
      {
        var setting :| setting in remaining;
        var converted := convert(types[setting], StarlarkValue(toOptions[i], setting), setting);
        if converted.Fail? {
          return Fail(ConversionFailed(converted.error));
        }
        remaining := remaining - {setting};
      }
    }
    return Pass;
  }

  // ------------------------------------------------------------ validate

  /**
   * validate: replays the events of every leaf, collects the type of every
   * changed setting, then type-checks every output configuration. The
   * package map must hold the package of every changed setting, as
   * BuildSettingPackageKeys computes them.
   */
  method Validate(root: Transition, packages: map<PackageId, Package>, toOptions: seq<Config.Options>,
                  sink: EventSink, convert: (SettingType, Config.Value, Label) -> Outcome<string>)
    returns (r: Outcome<TransitionError>)
    requires PackageKeys(AllChangedSettings(Leaves(root))) <= packages.Keys
    modifies sink, Definitions(Leaves(root))
    ensures var replayed := ReplaySpec(Leaves(root), ReplayState(old(Snapshot(Leaves(root))), old(sink.replayed)));
      && replayed.state == ReplayState(Snapshot(Leaves(root)), sink.replayed)
      && (replayed.outcome.Fail? ==> r == replayed.outcome)
    ensures var replayed := ReplaySpec(Leaves(root), ReplayState(old(Snapshot(Leaves(root))), old(sink.replayed)));
      var collected := CollectSpec(AllChangedSettings(Leaves(root)), packages, map[]);
      && (replayed.outcome.Pass? && collected.Failure? ==> r == Fail(collected.error))
      && (replayed.outcome.Pass? && collected.Success? ==>
           && (r.Pass? <==> forall i, l | 0 <= i < |toOptions| && l in collected.value ::
                             Converts(convert, collected.value, toOptions[i], l))
           && (r.Fail? ==> exists i, l | 0 <= i < |toOptions| && l in collected.value ::
                             && !Converts(convert, collected.value, toOptions[i], l)
                             && r.error == ConversionFailed(convert(collected.value[l],
                                  StarlarkValue(toOptions[i], l), l).error)
                             && forall j, m | 0 <= j < i && m in collected.value ::
                                  Converts(convert, collected.value, toOptions[j], m)))
  {
    ghost var replayed := ReplaySpec(Leaves(root), ReplayState(Snapshot(Leaves(root)), sink.replayed));
    r := ReplayEvents(sink, root);
    assert replayed.state == ReplayState(Snapshot(Leaves(root)), sink.replayed);
    if r.Fail? {
      return;
    }
    var collected := CollectSettingTypes(root, packages);
    if collected.Failure? {
      return Fail(collected.error);
    }
    r := CheckOutputs(toOptions, collected.value, convert);
    assert replayed.state == ReplayState(Snapshot(Leaves(root)), sink.replayed);
  }

  // ------------------------------------------------------------ composition

  /**
   * Applying a transition tree: a composition feeds every output of its first
   * part through its second part and concatenates the results in order. The
   * Starlark implementations and the native transitions are parameters.
   */
  function Apply(t: Transition, o: Config.Options,
                 starlark: (StarlarkTransition, Config.Options) -> seq<Config.Options>,
                 native: (string, Config.Options) -> seq<Config.Options>): seq<Config.Options>
    decreases t, 0
  {
    match t
    case Identity => [o]
    case Native(name) => native(name, o)
    case Starlark(leaf) => starlark(leaf, o)
    case Compose(first, second) => ApplyEach(second, Apply(first, o, starlark, native), starlark, native)
  }

  function ApplyEach(t: Transition, os: seq<Config.Options>,
                     starlark: (StarlarkTransition, Config.Options) -> seq<Config.Options>,
                     native: (string, Config.Options) -> seq<Config.Options>): seq<Config.Options>
    decreases t, 1, |os|
  {
    if os == [] then [] else Apply(t, os[0], starlark, native) + ApplyEach(t, os[1..], starlark, native)
  }

  predicate PassesTypeCheck(os: seq<Config.Options>, types: map<Label, SettingType>,
                            convert: (SettingType, Config.Value, Label) -> Outcome<string>)
  {
    forall i, l | 0 <= i < |os| && l in types :: Converts(convert, types, os[i], l)
  }

  /**
   * The documented limitation: only the final outputs are checked, so a bad
   * value written by a first transition and overwritten by a second one
   * composed after it goes unnoticed, although the first alone is rejected.
   */
  lemma OnlyFinalOutputsAreChecked(a: StarlarkTransition, b: StarlarkTransition, o: Config.Options,
                                   setting: Label, ty: SettingType, bad: Config.Value, good: Config.Value,
                                   starlark: (StarlarkTransition, Config.Options) -> seq<Config.Options>,
                                   native: (string, Config.Options) -> seq<Config.Options>,
                                   convert: (SettingType, Config.Value, Label) -> Outcome<string>)
    requires starlark(a, o) == [o.(starlark := o.starlark[setting := bad])]
    requires forall x :: starlark(b, x) == [x.(starlark := x.starlark[setting := good])]
    requires convert(ty, bad, setting).Fail? && convert(ty, good, setting).Pass?
    ensures !PassesTypeCheck(Apply(Starlark(a), o, starlark, native), map[setting := ty], convert)
    ensures PassesTypeCheck(Apply(Compose(Starlark(a), Starlark(b)), o, starlark, native), map[setting := ty], convert)
  {
    var types := map[setting := ty];
    var mid := o.(starlark := o.starlark[setting := bad]);
    assert !Converts(convert, types, Apply(Starlark(a), o, starlark, native)[0], setting);
    ComposedOutputs(a, b, o, setting, bad, good, starlark, native);
    OnlyOutputPasses(mid.(starlark := mid.starlark[setting := good]), setting, ty, good, convert);
  }

  lemma ComposedOutputs(a: StarlarkTransition, b: StarlarkTransition, o: Config.Options,
                        setting: Label, bad: Config.Value, good: Config.Value,
                        starlark: (StarlarkTransition, Config.Options) -> seq<Config.Options>,
                        native: (string, Config.Options) -> seq<Config.Options>)
    requires starlark(a, o) == [o.(starlark := o.starlark[setting := bad])]
    requires forall x :: starlark(b, x) == [x.(starlark := x.starlark[setting := good])]
    ensures var mid := o.(starlark := o.starlark[setting := bad]);
      Apply(Compose(Starlark(a), Starlark(b)), o, starlark, native) == [mid.(starlark := mid.starlark[setting := good])]
  {
    var mid := o.(starlark := o.starlark[setting := bad]);
    assert ApplyEach(Starlark(b), [mid], starlark, native)
        == Apply(Starlark(b), mid, starlark, native) + ApplyEach(Starlark(b), [], starlark, native);
  }

  lemma OnlyOutputPasses(final: Config.Options, setting: Label, ty: SettingType, good: Config.Value,
                         convert: (SettingType, Config.Value, Label) -> Outcome<string>)
    requires setting in final.starlark && final.starlark[setting] == good
    requires convert(ty, good, setting).Pass?
    ensures PassesTypeCheck([final], map[setting := ty], convert)
  {
    assert StarlarkValue(final, setting) == good;
  }
}
