/** The coordinated release of scripts/release.py: validate every declaration, stage the packages, then
    change the checkout. */
module Release {
  import opened Wrappers
  import opened Text

  // ----- Versions

  datatype Version = Version(major: nat, minor: nat, patch: nat)

  predicate Precedes(a: Version, b: Version) {
    a.major < b.major || (a.major == b.major && (a.minor < b.minor || (a.minor == b.minor && a.patch < b.patch)))
  }

  /** Zero, or digits without a leading zero. */
  predicate IsNumeral(s: string) {
    AllDigits(s) && (s == "0" || s[0] != '0')
  }

  /** `version_parts`: three numerals between dots. */
  function VersionParts(version: string): Result<Version> {
    var pieces := Split(version, '.');
    if |pieces| == 3 && IsNumeral(pieces[0]) && IsNumeral(pieces[1]) && IsNumeral(pieces[2]) then
      Success(Version(ReadDecimal(pieces[0]), ReadDecimal(pieces[1]), ReadDecimal(pieces[2])))
    else Failure
  }

  // ----- The checkout

  /** A dependency on another package; `local` ones carry a `path` into the workspace. */
  datatype Requirement = Requirement(dependency: string, version: string, local: bool)

  /** A mix.exs: its version declarations and requirements in order, and its other text. */
  datatype Manifest = Manifest(versions: seq<string>, requirements: seq<Requirement>, text: string)

  /** A package.json that may declare a version. */
  datatype Asset = Asset(version: Option<string>, metadata: string)

  datatype App = App(name: string, manifest: Manifest, asset: Option<Asset>, inputs: set<string>)

  datatype Checkout = Checkout(root: Manifest, apps: seq<App>)

  /** Which apps require which sibling, and which inputs each published package needs. */
  datatype Layout = Layout(siblings: map<string, string>, packages: map<string, set<string>>)

  const SOURCES: set<string> := {"lib", "mix.exs", "README.md", "LICENSE", ".formatter.exs"}

  const SAMGITA := Layout(
    map["samgita_protocol_websocket" := "samgita_protocol",
        "samgita_protocol_codex" := "samgita_protocol",
        "samgita_codex_driver" := "samgita_protocol_codex"],
    map["samgita_protocol" := SOURCES + {"priv"},
        "samgita_protocol_websocket" := SOURCES,
        "samgita_protocol_codex" := SOURCES + {"priv", "config"},
        "samgita_codex_driver" := SOURCES + {"priv", "config"}])

  datatype Staged = Staged(name: string, manifest: Manifest, inputs: set<string>)

  // ----- Validation and the new manifests

  /** The text that is counted and replaced: a local requirement of this sibling at this version. */
  function Count(requirements: seq<Requirement>, r: Requirement): nat {
    if requirements == [] then 0 else (if requirements[0] == r then 1 else 0) + Count(requirements[1..], r)
  }

  function Replaced(requirements: seq<Requirement>, before: Requirement, after: Requirement): (r: seq<Requirement>)
    ensures |r| == |requirements|
    ensures forall i :: 0 <= i < |r| ==> r[i] == if requirements[i] == before then after else requirements[i]
  {
    seq(|requirements|, i requires 0 <= i < |requirements| => if requirements[i] == before then after else requirements[i])
  }

  predicate AssetIs(app: App, version: string) {
    app.asset.Some? && app.asset.value.version.Some? ==> app.asset.value.version.value == version
  }

  /** The app declares its sibling once at this version. */
  predicate SiblingDeclared(app: App, layout: Layout, version: string) {
    app.name in layout.siblings ==>
      Count(app.manifest.requirements, Requirement(layout.siblings[app.name], version, true)) == 1
  }

  function NewApp(app: App, layout: Layout, canonical: string, version: string): App {
    var requirements := app.manifest.requirements;
    var manifest := app.manifest.(versions := [version],
      requirements :=
        if app.name in layout.siblings then
          var sibling := layout.siblings[app.name];
          Replaced(requirements, Requirement(sibling, canonical, true), Requirement(sibling, version, true))
        else requirements);
    var asset :=
      if app.asset.Some? && app.asset.value.version.Some? then Some(app.asset.value.(version := Some(version)))
      else app.asset;
    app.(manifest := manifest, asset := asset)
  }

  function NewApps(apps: seq<App>, layout: Layout, canonical: string, version: string): (r: seq<App>)
    ensures |r| == |apps|
    ensures forall i :: 0 <= i < |r| ==> r[i] == NewApp(apps[i], layout, canonical, version)
  {
    seq(|apps|, i requires 0 <= i < |apps| => NewApp(apps[i], layout, canonical, version))
  }

  function NewCheckout(checkout: Checkout, layout: Layout, canonical: string, version: string): Checkout {
    Checkout(checkout.root.(versions := [version, version]), NewApps(checkout.apps, layout, canonical, version))
  }

  function Canonical(checkout: Checkout): Option<string> {
    if checkout.root.versions == [] then None else Some(checkout.root.versions[0])
  }

  predicate AppFits(app: App, layout: Layout, canonical: string) {
    app.manifest.versions == [canonical] && AssetIs(app, canonical) && SiblingDeclared(app, layout, canonical)
  }

  predicate HasApp(apps: seq<App>, name: string) {
    exists i :: 0 <= i < |apps| && apps[i].name == name
  }

  /** Everything `version_changes` asks of the request and the checkout. */
  predicate Acceptable(checkout: Checkout, layout: Layout, version: string) {
    && VersionParts(version).Success?
    && Canonical(checkout).Some?
    && var canonical := Canonical(checkout).value;
      && VersionParts(canonical).Success?
      && !Precedes(VersionParts(version).value, VersionParts(canonical).value)
      && checkout.root.versions == [canonical, canonical]
      && (forall i :: 0 <= i < |checkout.apps| ==> AppFits(checkout.apps[i], layout, canonical))
      && (forall name <- layout.siblings :: HasApp(checkout.apps, name))
  }

  /** The loops over the manifests and assets: every app is checked and rewritten. */
  method CheckApps(apps: seq<App>, layout: Layout, canonical: string, version: string) returns (r: Result<seq<App>>)
    ensures r == if forall i :: 0 <= i < |apps| ==> AppFits(apps[i], layout, canonical)
                 then Success(NewApps(apps, layout, canonical, version)) else Failure
  {
    var updated := [];
    for i := 0 to |apps|
      invariant |updated| == i
      invariant forall j :: 0 <= j < i ==> updated[j] == NewApp(apps[j], layout, canonical, version)
      invariant forall j :: 0 <= j < i ==> AppFits(apps[j], layout, canonical)
    {
      if !AppFits(apps[i], layout, canonical) {
        return Failure;
      }
      updated := updated + [NewApp(apps[i], layout, canonical, version)];
    }
    assert updated == NewApps(apps, layout, canonical, version);
    return Success(updated);
  }

  /** The loop over the siblings: each must have a manifest. */
  method CheckSiblings(apps: seq<App>, layout: Layout) returns (ok: bool)
    ensures ok <==> forall name <- layout.siblings :: HasApp(apps, name)
  {
    var pending := layout.siblings.Keys;
    while pending != {}
      invariant pending <= layout.siblings.Keys
      invariant forall name <- layout.siblings :: name in pending || HasApp(apps, name)
      decreases |pending|
    {
      var name :| name in pending;
      if !HasApp(apps, name) {
        return false;
      }
      pending := pending - {name};
    }
    return true;
  }

  /** `version_changes`. */
  method VersionChanges(checkout: Checkout, layout: Layout, version: string) returns (r: Result<Checkout>)
    ensures r == if Acceptable(checkout, layout, version)
                 then Success(NewCheckout(checkout, layout, Canonical(checkout).value, version)) else Failure
  {
    var requested := VersionParts(version);
    if requested.Failure? || checkout.root.versions == [] {
      return Failure;
    }
    var canonical := checkout.root.versions[0];
    var current := VersionParts(canonical);
    if current.Failure? || Precedes(requested.value, current.value) || checkout.root.versions != [canonical, canonical] {
      return Failure;
    }
    var updated := CheckApps(checkout.apps, layout, canonical, version);
    var present := CheckSiblings(checkout.apps, layout);
    if updated.Failure? || !present {
      return Failure;
    }
    return Success(Checkout(checkout.root.(versions := [version, version]), updated.value));
  }

  // ----- Preparing a release

  predicate HasInputs(checkout: Checkout, layout: Layout, name: string)
    requires name in layout.packages
  {
    exists i :: 0 <= i < |checkout.apps| && checkout.apps[i].name == name && layout.packages[name] <= checkout.apps[i].inputs
  }

  predicate InputsExist(checkout: Checkout, layout: Layout) {
    forall name <- layout.packages :: HasInputs(checkout, layout, name)
  }

  /** Every application of this name, if there is one, lacks an input of the package. */
  predicate Lacks(checkout: Checkout, layout: Layout, name: string)
    requires name in layout.packages
  {
    forall i :: 0 <= i < |checkout.apps| && checkout.apps[i].name == name ==>
      exists input <- layout.packages[name] :: input !in checkout.apps[i].inputs
  }

  /** Inputs exist exactly when no package lacks one. */
  lemma InputsExistExactly(checkout: Checkout, layout: Layout)
    ensures InputsExist(checkout, layout) <==> forall name <- layout.packages :: !Lacks(checkout, layout, name)
  {
    forall name <- layout.packages ensures HasInputs(checkout, layout, name) <==> !Lacks(checkout, layout, name) {
      assert forall i :: 0 <= i < |checkout.apps| ==>
        (layout.packages[name] <= checkout.apps[i].inputs <==>
         forall input <- layout.packages[name] :: input in checkout.apps[i].inputs);
    }
  }

  method CheckInputs(checkout: Checkout, layout: Layout) returns (ok: bool)
    ensures ok <==> InputsExist(checkout, layout)
  {
    var pending := layout.packages.Keys;
    while pending != {}
      invariant pending <= layout.packages.Keys
      invariant forall name <- layout.packages :: name in pending || HasInputs(checkout, layout, name)
      decreases |pending|
    {
      var name :| name in pending;
      if !HasInputs(checkout, layout, name) {
        return false;
      }
      pending := pending - {name};
    }
    return true;
  }

  /** What a published package's manifest looks like: its sibling requirement without the local path. */
  function StagedManifest(app: App, layout: Layout): Manifest {
    if app.name !in layout.siblings then app.manifest
    else app.manifest.(requirements := Published(app.manifest.requirements, layout.siblings[app.name]))
  }

  function Published(requirements: seq<Requirement>, sibling: string): (r: seq<Requirement>)
    ensures |r| == |requirements|
    ensures forall i :: 0 <= i < |r| ==>
      r[i] == if requirements[i].dependency == sibling then requirements[i].(local := false) else requirements[i]
  {
    seq(|requirements|, i requires 0 <= i < |requirements| =>
      if requirements[i].dependency == sibling then requirements[i].(local := false) else requirements[i])
  }

  /** The staged packages of the new manifests, in checkout order. */
  function Stage(apps: seq<App>, layout: Layout): seq<Staged> {
    if apps == [] then [] else Stage(apps[..|apps| - 1], layout) + StageOne(apps[|apps| - 1], layout)
  }

  function StageOne(app: App, layout: Layout): seq<Staged> {
    if app.name in layout.packages then [Staged(app.name, StagedManifest(app, layout), layout.packages[app.name])] else []
  }

  method StagePackages(apps: seq<App>, layout: Layout) returns (staged: seq<Staged>)
    ensures staged == Stage(apps, layout)
  {
    staged := [];
    for i := 0 to |apps|
      invariant staged == Stage(apps[..i], layout)
    {
      assert apps[..i + 1][..i] == apps[..i];
      if apps[i].name in layout.packages {
        staged := staged + [Staged(apps[i].name, StagedManifest(apps[i], layout), layout.packages[apps[i].name])];
      }
    }
    assert apps[..|apps|] == apps;
  }

  /** What is staged for one application. */
  predicate IsStaged(s: Staged, app: App, layout: Layout) {
    && app.name in layout.packages && s.name == app.name && s.inputs == layout.packages[app.name]
    && s.manifest.versions == app.manifest.versions && s.manifest.text == app.manifest.text
    && |s.manifest.requirements| == |app.manifest.requirements|
    && forall i :: 0 <= i < |app.manifest.requirements| ==>
        var before, after := app.manifest.requirements[i], s.manifest.requirements[i];
        && after.dependency == before.dependency && after.version == before.version
        && after.local == (before.local && !(app.name in layout.siblings && layout.siblings[app.name] == before.dependency))
  }

  predicate StagedIn(staged: seq<Staged>, app: App, layout: Layout) {
    exists k :: 0 <= k < |staged| && IsStaged(staged[k], app, layout)
  }

  predicate OfOneOf(s: Staged, apps: seq<App>, layout: Layout) {
    exists i :: 0 <= i < |apps| && IsStaged(s, apps[i], layout)
  }

  /** Every published package of the checkout is staged, with its manifest and inputs, and nothing else is. */
  predicate StagedAre(staged: seq<Staged>, apps: seq<App>, layout: Layout) {
    && (forall i :: 0 <= i < |apps| && apps[i].name in layout.packages ==> StagedIn(staged, apps[i], layout))
    && (forall k :: 0 <= k < |staged| ==> OfOneOf(staged[k], apps, layout))
  }

  predicate NamesDiffer(apps: seq<App>) {
    forall i, j :: 0 <= i < j < |apps| ==> apps[i].name != apps[j].name
  }

  predicate StagedOnce(staged: seq<Staged>) {
    forall i, j :: 0 <= i < j < |staged| ==> staged[i].name != staged[j].name
  }

  lemma StagedFromApp(app: App, layout: Layout)
    requires app.name in layout.packages
    ensures IsStaged(Staged(app.name, StagedManifest(app, layout), layout.packages[app.name]), app, layout)
  {
  }

  lemma StillIn(staged: seq<Staged>, s: Staged, app: App, layout: Layout)
    requires StagedIn(staged, app, layout) || IsStaged(s, app, layout)
    ensures StagedIn(staged + [s], app, layout)
  {
    if StagedIn(staged, app, layout) {
      var k :| 0 <= k < |staged| && IsStaged(staged[k], app, layout);
      assert (staged + [s])[k] == staged[k];
    } else {
      assert (staged + [s])[|staged|] == s;
    }
  }

  lemma StillOf(s: Staged, front: seq<App>, app: App, layout: Layout)
    requires OfOneOf(s, front, layout) || IsStaged(s, app, layout)
    ensures OfOneOf(s, front + [app], layout)
  {
    if OfOneOf(s, front, layout) {
      var i :| 0 <= i < |front| && IsStaged(s, front[i], layout);
      assert (front + [app])[i] == front[i];
    } else {
      assert (front + [app])[|front|] == app;
    }
  }

  lemma OtherName(s: Staged, front: seq<App>, app: App, layout: Layout)
    requires OfOneOf(s, front, layout) && NamesDiffer(front + [app])
    ensures s.name != app.name
  {
    var i :| 0 <= i < |front| && IsStaged(s, front[i], layout);
    assert (front + [app])[i] == front[i] && (front + [app])[|front|] == app;
  }

  lemma FrontDiffers(front: seq<App>, app: App)
    requires NamesDiffer(front + [app])
    ensures NamesDiffer(front)
  {
    assert forall i :: 0 <= i < |front| ==> (front + [app])[i] == front[i];
  }

  lemma StageGrows(front: seq<App>, app: App, staged: seq<Staged>, s: Staged, layout: Layout)
    requires StagedAre(staged, front, layout) && IsStaged(s, app, layout)
    ensures StagedAre(staged + [s], front + [app], layout)
  {
    var apps, more := front + [app], staged + [s];
    forall i | 0 <= i < |apps| && apps[i].name in layout.packages ensures StagedIn(more, apps[i], layout) {
      assert apps[i] == if i < |front| then front[i] else app;
      StillIn(staged, s, apps[i], layout);
    }
    forall k | 0 <= k < |more| ensures OfOneOf(more[k], apps, layout) {
      assert more[k] == if k < |staged| then staged[k] else s;
      StillOf(more[k], front, app, layout);
    }
  }

  lemma StageStays(front: seq<App>, app: App, staged: seq<Staged>, layout: Layout)
    requires StagedAre(staged, front, layout) && app.name !in layout.packages
    ensures StagedAre(staged, front + [app], layout)
  {
    var apps := front + [app];
    forall i | 0 <= i < |apps| && apps[i].name in layout.packages ensures StagedIn(staged, apps[i], layout) {
      assert apps[i] == if i < |front| then front[i] else app;
    }
    forall k | 0 <= k < |staged| ensures OfOneOf(staged[k], apps, layout) {
      StillOf(staged[k], front, app, layout);
    }
  }

  lemma StageNext(front: seq<App>, app: App, staged: seq<Staged>, layout: Layout)
    requires StagedAre(staged, front, layout)
    ensures StagedAre(staged + StageOne(app, layout), front + [app], layout)
  {
    if app.name in layout.packages {
      StagedFromApp(app, layout);
      StageGrows(front, app, staged, StageOne(app, layout)[0], layout);
      assert StageOne(app, layout) == [StageOne(app, layout)[0]];
    } else {
      StageStays(front, app, staged, layout);
      assert staged + [] == staged;
    }
  }

  ghost predicate StagesAll(apps: seq<App>, layout: Layout) {
    exists staged :: staged == Stage(apps, layout) && StagedAre(staged, apps, layout)
  }

  lemma {:induction false} StageIs(apps: seq<App>, layout: Layout)
    ensures StagesAll(apps, layout)
  {
    if apps == [] {
      assert StagedAre([], apps, layout);
    } else {
      var front, app := apps[..|apps| - 1], apps[|apps| - 1];
      StageIs(front, layout);
      StageNext(front, app, Stage(front, layout), layout);
      assert apps == front + [app];
      var staged := Stage(front, layout) + StageOne(app, layout);
      assert staged == Stage(apps, layout);
    }
  }

  lemma {:induction false} StageIsOnce(apps: seq<App>, layout: Layout)
    requires NamesDiffer(apps)
    ensures StagedOnce(Stage(apps, layout))
  {
    if apps != [] {
      var front, app := apps[..|apps| - 1], apps[|apps| - 1];
      assert apps == front + [app];
      FrontDiffers(front, app);
      StageIsOnce(front, layout);
      StageIs(front, layout);
      var staged := Stage(front, layout);
      forall k | 0 <= k < |staged| ensures staged[k].name != app.name {
        OtherName(staged[k], front, app, layout);
      }
    }
  }

  /** A request is accepted when it is acceptable, its inputs exist and its output directory is fresh. */
  predicate Accepted(checkout: Checkout, layout: Layout, outputs: set<string>, version: string, output: string) {
    Acceptable(checkout, layout, version) && InputsExist(checkout, layout) && output !in outputs
  }

  function Prepared(checkout: Checkout, layout: Layout, version: string): Checkout
    requires Canonical(checkout).Some?
  {
    NewCheckout(checkout, layout, Canonical(checkout).value, version)
  }

  class Workspace {
    const layout: Layout
    var checkout: Checkout
    var outputs: map<string, seq<Staged>>

    constructor (layout: Layout, checkout: Checkout, outputs: map<string, seq<Staged>>)
      ensures this.layout == layout && this.checkout == checkout && this.outputs == outputs
    {
      this.layout := layout;
      this.checkout := checkout;
      this.outputs := outputs;
    }

    /** `prepare`: a rejected request changes nothing; an accepted one stages every package from the new
        manifests and only then changes the checkout. */
    method Prepare(version: string, output: string) returns (accepted: bool)
      modifies this
      ensures accepted <==> Accepted(old(checkout), layout, old(outputs.Keys), version, output)
      ensures accepted <==>
        && Acceptable(old(checkout), layout, version) && output !in old(outputs)
        && forall name <- layout.packages :: !Lacks(old(checkout), layout, name)
      ensures accepted ==> checkout == Prepared(old(checkout), layout, version)
      ensures State(checkout, outputs.Keys) == Next(State(old(checkout), old(outputs.Keys)), layout, Request(version, output))
      ensures accepted ==> outputs == old(outputs)[output := Stage(checkout.apps, layout)]
      ensures accepted ==> StagedAre(outputs[output], checkout.apps, layout)
      ensures accepted && NamesDiffer(checkout.apps) ==> StagedOnce(outputs[output])
      ensures !accepted ==> checkout == old(checkout) && outputs == old(outputs)
    {
      InputsExistExactly(checkout, layout);
      var updated := VersionChanges(checkout, layout, version);
      if updated.Failure? {
        return false;
      }
      var inputs := CheckInputs(checkout, layout);
      if !inputs || output in outputs {
        return false;
      }
      var staged := StagePackages(updated.value.apps, layout);
      StageIs(updated.value.apps, layout);
      if NamesDiffer(updated.value.apps) {
        StageIsOnce(updated.value.apps, layout);
      }
      outputs := outputs[output := staged];
      checkout := updated.value;
      return true;
    }
  }

  // ----- One coordinated version

  /** Every local requirement of a sibling. */
  predicate IsLocal(app: App, layout: Layout, r: Requirement) {
    app.name in layout.siblings && r.dependency == layout.siblings[app.name] && r.local
  }

  /** Every version declaration, asset version and local sibling requirement is this version. */
  predicate Coordinated(checkout: Checkout, layout: Layout, version: string) {
    && checkout.root.versions == [version, version]
    && forall i :: 0 <= i < |checkout.apps| ==>
        && checkout.apps[i].manifest.versions == [version]
        && AssetIs(checkout.apps[i], version)
        && RequiresOnly(checkout.apps[i], layout, {version})
  }

  predicate RequiresOnly(app: App, layout: Layout, versions: set<string>) {
    forall i :: 0 <= i < |app.manifest.requirements| && IsLocal(app, layout, app.manifest.requirements[i]) ==>
      app.manifest.requirements[i].version in versions
  }

  lemma NewAppRequires(app: App, layout: Layout, canonical: string, version: string)
    ensures RequiresOnly(NewApp(app, layout, canonical, version), layout, {version}) <==>
            RequiresOnly(app, layout, {canonical, version})
  {
    var after := NewApp(app, layout, canonical, version);
    if app.name in layout.siblings {
      var a, b := app.manifest.requirements, after.manifest.requirements;
      forall i | 0 <= i < |a|
        ensures IsLocal(after, layout, b[i]) == IsLocal(app, layout, a[i])
        ensures IsLocal(app, layout, a[i]) ==> (b[i].version == version <==> a[i].version in {canonical, version})
      {
      }
      if RequiresOnly(after, layout, {version}) {
        forall i | 0 <= i < |a| && IsLocal(app, layout, a[i]) ensures a[i].version in {canonical, version} {
          assert IsLocal(after, layout, b[i]);
        }
      }
    }
  }

  /** After an accepted request the whole checkout is on the requested version exactly when every local
      sibling requirement was on the old or the requested one: the replacement leaves any other alone. */
  lemma AcceptedCoordinates(checkout: Checkout, layout: Layout, version: string)
    requires Acceptable(checkout, layout, version)
    ensures
      var canonical := Canonical(checkout).value;
      Coordinated(Prepared(checkout, layout, version), layout, version) <==>
        forall i :: 0 <= i < |checkout.apps| ==> RequiresOnly(checkout.apps[i], layout, {canonical, version})
  {
    var canonical := Canonical(checkout).value;
    var after := Prepared(checkout, layout, version);
    forall i | 0 <= i < |checkout.apps|
      ensures RequiresOnly(after.apps[i], layout, {version}) <==> RequiresOnly(checkout.apps[i], layout, {canonical, version})
    {
      NewAppRequires(checkout.apps[i], layout, canonical, version);
    }
    if Coordinated(after, layout, version) {
      forall i | 0 <= i < |checkout.apps| ensures RequiresOnly(checkout.apps[i], layout, {canonical, version}) {
        assert RequiresOnly(after.apps[i], layout, {version});
      }
    }
  }

  // ----- Runs of requests

  datatype Request = Request(version: string, output: string)

  datatype State = State(checkout: Checkout, outputs: set<string>)

  function Next(s: State, layout: Layout, r: Request): State {
    if Accepted(s.checkout, layout, s.outputs, r.version, r.output)
    then State(Prepared(s.checkout, layout, r.version), s.outputs + {r.output}) else s
  }

  function Run(s: State, layout: Layout, requests: seq<Request>): State {
    if requests == [] then s else Next(Run(s, layout, requests[..|requests| - 1]), layout, requests[|requests| - 1])
  }

  /** The checkout is coordinated on one well-formed version. */
  ghost predicate OnVersion(checkout: Checkout, layout: Layout, v: Version) {
    && Canonical(checkout).Some?
    && Coordinated(checkout, layout, Canonical(checkout).value)
    && VersionParts(Canonical(checkout).value) == Success(v)
  }

  lemma StepKeepsVersion(s: State, layout: Layout, r: Request, v: Version) returns (w: Version)
    requires OnVersion(s.checkout, layout, v)
    ensures OnVersion(Next(s, layout, r).checkout, layout, w) && !Precedes(w, v)
    ensures Accepted(s.checkout, layout, s.outputs, r.version, r.output) ==> VersionParts(r.version) == Success(w)
  {
    w := v;
    if Accepted(s.checkout, layout, s.outputs, r.version, r.output) {
      AcceptedCoordinates(s.checkout, layout, r.version);
      w := VersionParts(r.version).value;
    }
  }

  /** Over every sequence of requests, accepted or not, a coordinated checkout stays coordinated on one
      version, and that version never goes back. */
  lemma {:induction false} RunKeepsVersion(s: State, layout: Layout, requests: seq<Request>, k: nat, v: Version)
    returns (w: Version, end: Version)
    requires OnVersion(s.checkout, layout, v) && k <= |requests|
    ensures OnVersion(Run(s, layout, requests[..k]).checkout, layout, w)
    ensures OnVersion(Run(s, layout, requests).checkout, layout, end)
    ensures !Precedes(w, v) && !Precedes(end, w)
    decreases |requests|
  {
    if requests == [] {
      w, end := v, v;
    } else {
      var front, last := requests[..|requests| - 1], requests[|requests| - 1];
      var before;
      if k == |requests| {
        before, end := RunKeepsVersion(s, layout, front, |front|, v);
        assert front[..|front|] == front && requests[..k] == requests;
        end := StepKeepsVersion(Run(s, layout, front), layout, last, end);
        w := end;
      } else {
        w, before := RunKeepsVersion(s, layout, front, k, v);
        assert front[..k] == requests[..k];
        end := StepKeepsVersion(Run(s, layout, front), layout, last, before);
      }
    }
  }

  /** Repeating an accepted version leaves the checkout as it is. */
  lemma RepeatIsIdentity(checkout: Checkout, layout: Layout, version: string)
    requires Acceptable(checkout, layout, version)
    ensures Prepared(Prepared(checkout, layout, version), layout, version) == Prepared(checkout, layout, version)
  {
    var once := Prepared(checkout, layout, version);
    var twice := Prepared(once, layout, version);
    forall i | 0 <= i < |once.apps| ensures twice.apps[i] == once.apps[i] {
      var a, b := once.apps[i].manifest.requirements, twice.apps[i].manifest.requirements;
      assert a == b;
    }
    assert twice.apps == once.apps;
  }

  lemma {:induction false} CountReplaced(requirements: seq<Requirement>, before: Requirement, after: Requirement)
    ensures Count(Replaced(requirements, before, after), after) ==
            if before == after then Count(requirements, after) else Count(requirements, before) + Count(requirements, after)
  {
    if requirements != [] {
      CountReplaced(requirements[1..], before, after);
      assert Replaced(requirements, before, after)[1..] == Replaced(requirements[1..], before, after);
    }
  }

  lemma {:induction false} NoneCounted(requirements: seq<Requirement>, r: Requirement)
    requires r !in requirements
    ensures Count(requirements, r) == 0
  {
    if requirements != [] {
      NoneCounted(requirements[1..], r);
    }
  }

  lemma NewAppFits(app: App, layout: Layout, canonical: string, version: string)
    requires AppFits(app, layout, canonical) && RequiresOnly(app, layout, {canonical})
    ensures AppFits(NewApp(app, layout, canonical, version), layout, version)
  {
    if app.name in layout.siblings {
      var sibling, requirements := layout.siblings[app.name], app.manifest.requirements;
      var after := Requirement(sibling, version, true);
      CountReplaced(requirements, Requirement(sibling, canonical, true), after);
      if version != canonical {
        forall i | 0 <= i < |requirements| ensures requirements[i] != after {
          assert IsLocal(app, layout, requirements[i]) ==> requirements[i].version == canonical;
        }
        NoneCounted(requirements, after);
      }
    }
  }

  /** On a coordinated checkout an accepted version can be requested again. */
  lemma RepeatIsAcceptable(checkout: Checkout, layout: Layout, version: string)
    requires Acceptable(checkout, layout, version) && Coordinated(checkout, layout, Canonical(checkout).value)
    ensures Acceptable(Prepared(checkout, layout, version), layout, version)
  {
    var canonical := Canonical(checkout).value;
    var after := Prepared(checkout, layout, version);
    forall i | 0 <= i < |after.apps| ensures AppFits(after.apps[i], layout, version) {
      NewAppFits(checkout.apps[i], layout, canonical, version);
    }
    forall name | name in layout.siblings ensures HasApp(after.apps, name) {
      assert HasApp(checkout.apps, name);
      var i :| 0 <= i < |checkout.apps| && checkout.apps[i].name == name;
      assert after.apps[i].name == name;
    }
  }

  /** The staged manifest of a package keeps its versions and has no local sibling requirement left. */
  lemma StagedIsPublishable(app: App, layout: Layout)
    ensures StagedManifest(app, layout).versions == app.manifest.versions
    ensures |StagedManifest(app, layout).requirements| == |app.manifest.requirements|
    ensures forall i :: 0 <= i < |app.manifest.requirements| ==>
      var before, after := app.manifest.requirements[i], StagedManifest(app, layout).requirements[i];
      && after.dependency == before.dependency && after.version == before.version
      && !IsLocal(app, layout, after)
      && (!IsLocal(app, layout, before) ==> after == before)
  {
  }

  // ----- Versions as text

  function VersionText(v: Version): string {
    Decimal(v.major) + "." + (Decimal(v.minor) + "." + Decimal(v.patch))
  }

  lemma {:induction false} DecimalIsNumeral(n: nat)
    ensures IsNumeral(Decimal(n)) && (n > 0 ==> Decimal(n)[0] != '0') && '.' !in Decimal(n)
  {
    if n >= 10 {
      DecimalIsNumeral(n / 10);
      assert Decimal(n)[0] == Decimal(n / 10)[0];
    }
  }

  /** Every version is read back from its text. */
  lemma VersionReadsBack(v: Version)
    ensures VersionParts(VersionText(v)) == Success(v)
  {
    var a, b, c := Decimal(v.major), Decimal(v.minor), Decimal(v.patch);
    DecimalIsNumeral(v.major);
    DecimalIsNumeral(v.minor);
    DecimalIsNumeral(v.patch);
    DecimalRoundTrip(v.major);
    DecimalRoundTrip(v.minor);
    DecimalRoundTrip(v.patch);
    ThreePieces(a, b, c);
  }

  lemma ThreePieces(a: string, b: string, c: string)
    requires '.' !in a && '.' !in b && '.' !in c
    ensures Split(a + "." + (b + "." + c), '.') == [a, b, c]
  {
    SplitFirst(a, b + "." + c, '.');
    SplitFirst(b, c, '.');
    SplitFirst(c, "", '.');
    assert a + ['.'] + (b + "." + c) == a + "." + (b + "." + c);
  }

  lemma {:induction false} NumeralReadsBack(s: string)
    requires IsNumeral(s)
    ensures Decimal(ReadDecimal(s)) == s && (s != "0" ==> ReadDecimal(s) > 0)
  {
    var front, last := s[..|s| - 1], s[|s| - 1];
    if |s| > 1 {
      assert front[0] == s[0] && IsNumeral(front);
      NumeralReadsBack(front);
      assert s == front + [last];
      assert ReadDecimal(s) / 10 == ReadDecimal(front) && ReadDecimal(s) % 10 == last as int - '0' as int;
    }
  }

  function WithDots(pieces: seq<string>): string
    requires pieces != []
  {
    if |pieces| == 1 then pieces[0] else pieces[0] + "." + WithDots(pieces[1..])
  }

  lemma {:induction false} SplitJoins(s: string)
    ensures WithDots(Split(s, '.')) == s
  {
    if s != "" {
      SplitJoins(s[1..]);
      var rest := Split(s[1..], '.');
      assert s == [s[0]] + s[1..];
      if s[0] == '.' {
        assert ([""] + rest)[1..] == rest;
      } else {
        var pieces := [[s[0]] + rest[0]] + rest[1..];
        assert pieces[1..] == rest[1..];
        if |rest| > 1 {
          assert [s[0]] + (rest[0] + "." + WithDots(rest[1..])) == ([s[0]] + rest[0]) + "." + WithDots(rest[1..]);
        }
      }
    }
  }

  /** A text is a version exactly when it is the text of one. */
  lemma VersionIsText(text: string, v: Version)
    ensures VersionParts(text) == Success(v) <==> text == VersionText(v)
  {
    VersionReadsBack(v);
    if VersionParts(text) == Success(v) {
      var pieces := Split(text, '.');
      SplitJoins(text);
      assert WithDots(pieces) == pieces[0] + "." + WithDots(pieces[1..]);
      assert WithDots(pieces[1..]) == pieces[1] + "." + WithDots(pieces[1..][1..]);
      assert pieces[1..][1..] == [pieces[2]];
      NumeralReadsBack(pieces[0]);
      NumeralReadsBack(pieces[1]);
      NumeralReadsBack(pieces[2]);
    }
  }

  /** Versions are ordered by major, then minor, then patch number. */
  lemma PrecedesIsOrder(a: Version, b: Version, c: Version)
    ensures a == b || Precedes(a, b) || Precedes(b, a)
    ensures !(Precedes(a, b) && Precedes(b, a)) && !Precedes(a, a)
    ensures Precedes(a, b) && Precedes(b, c) ==> Precedes(a, c)
    ensures Precedes(a, a.(patch := a.patch + 1)) && Precedes(a, Version(a.major, a.minor + 1, 0))
    ensures Precedes(a, Version(a.major + 1, 0, 0))
  {
  }

  // ----- What a request has to meet

  lemma {:induction false} CountIsZero(requirements: seq<Requirement>, r: Requirement)
    ensures Count(requirements, r) == 0 <==> r !in requirements
  {
    if requirements != [] {
      CountIsZero(requirements[1..], r);
      assert requirements == [requirements[0]] + requirements[1..];
    }
  }

  /** This requirement stands here and nowhere else. */
  predicate OnlyAt(requirements: seq<Requirement>, r: Requirement, i: int) {
    0 <= i < |requirements| && requirements[i] == r
    && forall j :: 0 <= j < |requirements| && j != i ==> requirements[j] != r
  }

  lemma {:induction false} CountIsOne(requirements: seq<Requirement>, r: Requirement)
    ensures Count(requirements, r) == 1 <==> StandsOnce(requirements, r)
  {
    if requirements != [] {
      var rest := requirements[1..];
      CountIsOne(rest, r);
      CountIsZero(rest, r);
      assert forall j :: 1 <= j < |requirements| ==> requirements[j] == rest[j - 1];
      if requirements[0] == r {
        if r !in rest {
          assert OnlyAt(requirements, r, 0);
        }
        if i :| 0 <= i < |requirements| && OnlyAt(requirements, r, i) {
          assert i == 0;
        }
      } else {
        if i :| 0 <= i < |rest| && OnlyAt(rest, r, i) {
          assert OnlyAt(requirements, r, i + 1);
        }
        if i :| 0 <= i < |requirements| && OnlyAt(requirements, r, i) {
          assert OnlyAt(rest, r, i - 1);
        }
      }
    }
  }

  predicate StandsOnce(requirements: seq<Requirement>, r: Requirement) {
    exists i :: 0 <= i < |requirements| && OnlyAt(requirements, r, i)
  }

  /** One declaration of the version, like the asset's, and the sibling's local requirement at it in exactly one place. */
  predicate Meets(app: App, layout: Layout, version: string) {
    && app.manifest.versions == [version]
    && (app.asset.Some? && app.asset.value.version.Some? ==> app.asset.value.version.value == version)
    && (app.name in layout.siblings ==>
          StandsOnce(app.manifest.requirements, Requirement(layout.siblings[app.name], version, true)))
  }

  lemma MeetsIsFits(app: App, layout: Layout, version: string)
    ensures Meets(app, layout, version) <==> AppFits(app, layout, version)
  {
    if app.name in layout.siblings {
      CountIsOne(app.manifest.requirements, Requirement(layout.siblings[app.name], version, true));
    }
  }

  /** The root declares a version twice, the requested one does not precede it, every application declares it once, like
      its asset and its sibling requirement, and every sibling is there. */
  ghost predicate Consistent(checkout: Checkout, layout: Layout, requested: Version, current: Version) {
    && checkout.root.versions == [VersionText(current), VersionText(current)]
    && !Precedes(requested, current)
    && (forall i :: 0 <= i < |checkout.apps| ==> Meets(checkout.apps[i], layout, VersionText(current)))
    && (forall name <- layout.siblings :: exists i :: 0 <= i < |checkout.apps| && checkout.apps[i].name == name)
  }

  lemma ConsistentIsAcceptable(checkout: Checkout, layout: Layout, requested: Version, current: Version)
    requires Consistent(checkout, layout, requested, current)
    ensures Acceptable(checkout, layout, VersionText(requested))
  {
    VersionIsText(VersionText(requested), requested);
    VersionIsText(VersionText(current), current);
    forall i | 0 <= i < |checkout.apps| ensures AppFits(checkout.apps[i], layout, VersionText(current)) {
      MeetsIsFits(checkout.apps[i], layout, VersionText(current));
    }
  }

  /** `version_changes` accepts exactly the texts of versions that do not precede the one that the whole checkout is
      consistent on. */
  lemma AcceptableExactly(checkout: Checkout, layout: Layout, version: string)
    ensures Acceptable(checkout, layout, version) <==>
            exists requested, current :: version == VersionText(requested) && Consistent(checkout, layout, requested, current)
  {
    if Acceptable(checkout, layout, version) {
      var canonical := Canonical(checkout).value;
      var requested, current := VersionParts(version).value, VersionParts(canonical).value;
      VersionIsText(version, requested);
      VersionIsText(canonical, current);
      forall i | 0 <= i < |checkout.apps| ensures Meets(checkout.apps[i], layout, canonical) {
        MeetsIsFits(checkout.apps[i], layout, canonical);
      }
      forall name <- layout.siblings ensures exists i :: 0 <= i < |checkout.apps| && checkout.apps[i].name == name {
        assert HasApp(checkout.apps, name);
      }
      assert Consistent(checkout, layout, requested, current);
    }
    if requested, current :| version == VersionText(requested) && Consistent(checkout, layout, requested, current) {
      ConsistentIsAcceptable(checkout, layout, requested, current);
    }
  }

  /** An accepted request changes versions and nothing else: every application keeps its name, its inputs, its other
      text and its requirements but for the version of its local sibling. */
  lemma OnlyVersionsChange(checkout: Checkout, layout: Layout, version: string, i: nat)
    requires Acceptable(checkout, layout, version) && i < |checkout.apps|
    ensures
      var after := Prepared(checkout, layout, version);
      && after.root.text == checkout.root.text && after.root.requirements == checkout.root.requirements
      && |after.apps| == |checkout.apps|
      && OnlyVersions(checkout.apps[i], after.apps[i], layout)
  {
  }

  predicate OnlyVersions(before: App, after: App, layout: Layout) {
    && after.name == before.name && after.inputs == before.inputs && after.manifest.text == before.manifest.text
    && (before.asset.None? ==> after.asset.None?)
    && (before.asset.Some? ==>
          && after.asset.Some? && after.asset.value.metadata == before.asset.value.metadata
          && (before.asset.value.version.None? ==> after.asset.value.version.None?))
    && |after.manifest.requirements| == |before.manifest.requirements|
    && forall k :: 0 <= k < |before.manifest.requirements| ==>
        var was, now := before.manifest.requirements[k], after.manifest.requirements[k];
        && now.dependency == was.dependency && now.local == was.local
        && (!IsLocal(before, layout, was) ==> now == was)
  }

  // ----- A checkout of this layout

  /** An application on this version with its sibling requirement. */
  function OnlyApp(name: string, version: string): App {
    var requirements :=
      if name in SAMGITA.siblings then [Requirement(SAMGITA.siblings[name], version, true)] else [];
    App(name, Manifest([version], requirements, ""), None, SOURCES + {"priv", "config"})
  }

  const NAMES := ["samgita_codex_driver", "samgita_protocol", "samgita_protocol_codex", "samgita_protocol_websocket"]

  function OnlyApps(version: string): Checkout {
    Checkout(Manifest([version, version], [], ""), seq(4, i requires 0 <= i < 4 => OnlyApp(NAMES[i], version)))
  }

  lemma OnlyAppFits(name: string, version: string)
    ensures AppFits(OnlyApp(name, version), SAMGITA, version) && RequiresOnly(OnlyApp(name, version), SAMGITA, {version})
  {
    if name in SAMGITA.siblings {
      var r := Requirement(SAMGITA.siblings[name], version, true);
      assert [r][1..] == [] && Count([r], r) == 1 + Count([], r);
    }
  }

  lemma NamesAreListed(name: string)
    requires name in SAMGITA.siblings || name in SAMGITA.packages
    ensures name in NAMES
  {
    assert name in {NAMES[0], NAMES[1], NAMES[2], NAMES[3]};
  }

  /** Of the repository's layout there is a checkout on any version, and it accepts every version that does
      not precede it. */
  lemma SamgitaAccepts(current: Version, requested: Version, output: string)
    requires !Precedes(requested, current)
    ensures
      var checkout := OnlyApps(VersionText(current));
      && OnVersion(checkout, SAMGITA, current)
      && Accepted(checkout, SAMGITA, {}, VersionText(requested), output)
  {
    var version := VersionText(current);
    var checkout := OnlyApps(version);
    VersionReadsBack(current);
    VersionReadsBack(requested);
    forall i | 0 <= i < 4
      ensures AppFits(checkout.apps[i], SAMGITA, version) && RequiresOnly(checkout.apps[i], SAMGITA, {version})
    {
      OnlyAppFits(NAMES[i], version);
    }
    forall name | name in SAMGITA.siblings || name in SAMGITA.packages
      ensures exists i :: 0 <= i < |checkout.apps| && checkout.apps[i].name == name
    {
      NamesAreListed(name);
      var i :| 0 <= i < |NAMES| && NAMES[i] == name;
      assert checkout.apps[i].name == name;
    }
    InputsAreThere(checkout);
  }

  lemma InputsAreThere(checkout: Checkout)
    requires forall name <- SAMGITA.packages :: HasApp(checkout.apps, name)
    requires forall i :: 0 <= i < |checkout.apps| ==> checkout.apps[i].inputs == SOURCES + {"priv", "config"}
    ensures InputsExist(checkout, SAMGITA)
  {
    forall name <- SAMGITA.packages ensures HasInputs(checkout, SAMGITA, name) {
      assert HasApp(checkout.apps, name);
      var i :| 0 <= i < |checkout.apps| && checkout.apps[i].name == name;
      assert SAMGITA.packages[name] <= SOURCES + {"priv", "config"};
    }
  }
}
