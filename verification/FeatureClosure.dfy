/** The module contracts of xtask/src/server_feature_contracts.rs and server_contracts.rs:
    local checks on single dependencies, and the closures they are meant to guarantee. */
module FeatureClosure {
  import opened Text
  import opened GraphPaths

  datatype Spec = Spec(
    required: bool, extension: bool, crateName: string, capabilityOnly: bool, dependsOn: seq<string>)

  type Modules = map<string, Spec>
  type Features = map<string, set<string>>

  // ---------------------------------------------------------------- the checks

  function Feature(slug: string): string {
    "mod-" + slug
  }

  /** The listed slugs, trimmed, blanks dropped. */
  function Enabled(list: seq<string>): set<string> {
    set i | 0 <= i < |list| && Trim(Rust, list[i]) != "" :: Trim(Rust, list[i])
  }

  predicate Optional(ms: Modules, slug: string) {
    slug in ms && !ms[slug].required
  }

  function ServerDefaults(fs: Features): set<string> {
    if "default" in fs then fs["default"] else {}
  }

  /** `validate_default_enabled_server_contract`; no list, nothing to check. */
  predicate DefaultsAccepted(ms: Modules, fs: Features, list: Option<seq<string>>) {
    list.Some? ==>
      var on := Enabled(list.value);
      && (forall slug :: slug in on && slug in ms ==> !ms[slug].required)
      && (forall slug :: slug in on && slug in ms ==>
            forall i :: 0 <= i < |ms[slug].dependsOn| ==>
              var dep := Trim(Rust, ms[slug].dependsOn[i]);
              dep != "" && Optional(ms, dep) ==> dep in on)
      && (forall slug :: slug in on && Optional(ms, slug) ==> Feature(slug) in ServerDefaults(fs))
  }

  /** White space around the listed slugs does not matter, and blank entries list nothing. */
  lemma EnabledExact(list: seq<string>, slug: string)
    requires Solid(Rust, slug)
    ensures slug in Enabled(list) <==>
            slug != "" && exists i :: 0 <= i < |list| && Padded(list[i], slug)
  {
    forall i | 0 <= i < |list| ensures Trim(Rust, list[i]) == slug <==> Padded(list[i], slug) {
      PaddedExact(list[i], slug);
    }
  }

  ghost predicate Padded(s: string, slug: string) {
    exists a, b :: Blank(Rust, a) && Blank(Rust, b) && s == a + slug + b
  }

  lemma PaddedExact(s: string, slug: string)
    requires Solid(Rust, slug)
    ensures Trim(Rust, s) == slug <==> Padded(s, slug)
  {
    if a, b :| Blank(Rust, a) && Blank(Rust, b) && s == a + slug + b { TrimPadded(Rust, a, slug, b); }
    if Trim(Rust, s) == slug {
      var a, b := TrimSplits(Rust, s);
      assert s == a + slug + b;
    }
  }

  /** `optional_dependency_features` */
  function DependencyFeatures(deps: seq<string>, fs: Features): set<string> {
    set i | 0 <= i < |deps| && Feature(Trim(Rust, deps[i])) in fs :: Feature(Trim(Rust, deps[i]))
  }

  function ModuleEntries(entries: set<string>): set<string> {
    set e | e in entries && "mod-" <= e
  }

  /** The feature links the module's crate; a capability-only module may be linked always. */
  predicate Wired(spec: Spec, entries: set<string>) {
    "dep:" + spec.crateName in entries || (spec.capabilityOnly && "dep:" !in entries)
  }

  /** The feature part of `validate_module_server_registry_contract` for one module. */
  predicate GraphAccepted(ms: Modules, fs: Features, slug: string)
    requires slug in ms
  {
    ms[slug].extension || ms[slug].required ||
    (Feature(slug) in fs && Wired(ms[slug], fs[Feature(slug)])
     && ModuleEntries(fs[Feature(slug)]) == DependencyFeatures(ms[slug].dependsOn, fs))
  }

  // ------------------------------------------------------------- dependencies

  function DependencyGraph(ms: Modules): Graph {
    set slug, i | slug in ms && 0 <= i < |ms[slug].dependsOn| :: (slug, Trim(Rust, ms[slug].dependsOn[i]))
  }

  lemma EdgeOf(ms: Modules, slug: string, i: nat)
    requires slug in ms && i < |ms[slug].dependsOn|
    ensures (slug, Trim(Rust, ms[slug].dependsOn[i])) in DependencyGraph(ms)
  {
  }

  lemma EdgeIndex(ms: Modules, a: string, b: string) returns (i: nat)
    requires (a, b) in DependencyGraph(ms)
    ensures a in ms && i < |ms[a].dependsOn| && Trim(Rust, ms[a].dependsOn[i]) == b
  {
    i :| a in ms && 0 <= i < |ms[a].dependsOn| && Trim(Rust, ms[a].dependsOn[i]) == b;
  }

  /** A chain of dependencies through optional modules. */
  predicate OptionalChain(ms: Modules, p: seq<string>) {
    Path(DependencyGraph(ms), p) && forall i :: 0 < i < |p| ==> p[i] != "" && Optional(ms, p[i])
  }

  /** Everything an enabled module leads to is enabled and in the server's defaults. */
  ghost predicate Closed(ms: Modules, fs: Features, on: set<string>) {
    forall p :: OptionalChain(ms, p) && p[0] in on && Optional(ms, p[0]) ==>
      p[|p| - 1] in on && Feature(p[|p| - 1]) in ServerDefaults(fs)
  }

  lemma {:induction false} ChainEnabled(ms: Modules, fs: Features, list: seq<string>, p: seq<string>)
    requires DefaultsAccepted(ms, fs, Some(list)) && OptionalChain(ms, p) && p[0] in Enabled(list) && p[0] in ms
    ensures p[|p| - 1] in Enabled(list)
    decreases |p|
  {
    if |p| > 1 {
      var q := p[..|p| - 1];
      SubPath(DependencyGraph(ms), p, 0, |p| - 1);
      assert p[0..|p| - 1] == q;
      ChainEnabled(ms, fs, list, q);
      var a, b := p[|p| - 2], p[|p| - 1];
      assert (p[|p| - 2], p[|p| - 2 + 1]) in DependencyGraph(ms);
      var i := EdgeIndex(ms, a, b);
      assert Optional(ms, b);
    }
  }

  /** The one-edge check accepts exactly when no required module is listed and the list is
      closed under every chain of optional dependencies, features included. */
  lemma DefaultsExactlyClosed(ms: Modules, fs: Features, list: seq<string>)
    ensures DefaultsAccepted(ms, fs, None)
    ensures DefaultsAccepted(ms, fs, Some(list)) <==>
            && (forall slug :: slug in Enabled(list) && slug in ms ==> !ms[slug].required)
            && Closed(ms, fs, Enabled(list))
  {
    var on := Enabled(list);
    if DefaultsAccepted(ms, fs, Some(list)) {
      forall p | OptionalChain(ms, p) && p[0] in on && Optional(ms, p[0])
        ensures p[|p| - 1] in on && Feature(p[|p| - 1]) in ServerDefaults(fs)
      {
        ChainEnabled(ms, fs, list, p);
        assert Optional(ms, p[|p| - 1]);
      }
    }
    if (forall slug :: slug in on && slug in ms ==> !ms[slug].required) && Closed(ms, fs, on) {
      ClosedAccepted(ms, fs, list);
    }
  }

  lemma ClosedAccepted(ms: Modules, fs: Features, list: seq<string>)
    requires forall slug :: slug in Enabled(list) && slug in ms ==> !ms[slug].required
    requires Closed(ms, fs, Enabled(list))
    ensures DefaultsAccepted(ms, fs, Some(list))
  {
    var on := Enabled(list);
    forall slug | slug in on && Optional(ms, slug) ensures Feature(slug) in ServerDefaults(fs) {
      assert OptionalChain(ms, [slug]);
      assert [slug][0] == slug;
    }
    forall slug, i | slug in on && slug in ms && 0 <= i < |ms[slug].dependsOn|
      ensures var dep := Trim(Rust, ms[slug].dependsOn[i]); dep != "" && Optional(ms, dep) ==> dep in on
    {
      var dep := Trim(Rust, ms[slug].dependsOn[i]);
      if dep != "" && Optional(ms, dep) {
        EdgeOf(ms, slug, i);
        var p := [slug, dep];
        assert OptionalChain(ms, p);
        assert p[0] in on && Optional(ms, p[0]);
      }
    }
  }

  // ---------------------------------------------------------- the feature graph

  /** What enabling a feature switches on: the features among its entries, and so on. */
  function FeatureGraph(fs: Features): Graph {
    set f, e | f in fs && e in fs[f] && e in fs :: (f, e)
  }

  function ModuleFeatures(fs: Features): set<string> {
    set f | f in fs && "mod-" <= f
  }

  /** The modules that have a server feature. */
  function Featured(fs: Features): set<string> {
    set f | f in fs && "mod-" <= f :: f[4..]
  }

  lemma FeaturedIs(fs: Features, slug: string)
    ensures slug in Featured(fs) <==> Feature(slug) in fs
    ensures Feature(slug) in ModuleFeatures(fs) <==> Feature(slug) in fs
  {
    assert Feature(slug)[4..] == slug && "mod-" <= Feature(slug);
    if slug in Featured(fs) {
      var f :| f in fs && "mod-" <= f && f[4..] == slug;
      assert f == Feature(slug);
    }
  }

  /** The checks passed, and every `mod-` feature belongs to a checked optional module. */
  ghost predicate Sound(ms: Modules, fs: Features) {
    && (forall slug :: slug in ms ==> GraphAccepted(ms, fs, slug))
    && (forall slug :: slug in Featured(fs) ==> Optional(ms, slug) && !ms[slug].extension)
  }

  /** One step in the feature graph between module features is one dependency. */
  lemma StepIsDependency(ms: Modules, fs: Features, a: string, b: string)
    requires Sound(ms, fs) && a in Featured(fs)
    ensures (Feature(a), Feature(b)) in FeatureGraph(fs) <==> (a, b) in DependencyGraph(ms) && b in Featured(fs)
  {
    FeaturedIs(fs, a);
    FeaturedIs(fs, b);
    assert GraphAccepted(ms, fs, a);
    var entries := fs[Feature(a)];
    assert "mod-" <= Feature(b);
    if (Feature(a), Feature(b)) in FeatureGraph(fs) {
      assert Feature(b) in ModuleEntries(entries);
      var i :| 0 <= i < |ms[a].dependsOn| && Feature(Trim(Rust, ms[a].dependsOn[i])) == Feature(b);
      SameFeature(Trim(Rust, ms[a].dependsOn[i]), b);
      EdgeOf(ms, a, i);
    }
    if (a, b) in DependencyGraph(ms) && b in Featured(fs) {
      var i := EdgeIndex(ms, a, b);
      assert Feature(b) in DependencyFeatures(ms[a].dependsOn, fs);
      assert Feature(b) in ModuleEntries(entries);
    }
  }

  lemma SameFeature(a: string, b: string)
    requires Feature(a) == Feature(b)
    ensures a == b
  {
    assert Feature(a)[4..] == a && Feature(b)[4..] == b;
  }

  /** The module a `mod-` feature belongs to. */
  function Slug(feature: string): string {
    if "mod-" <= feature then feature[4..] else feature
  }

  lemma SlugOf(fs: Features, f: string)
    requires f in ModuleFeatures(fs)
    ensures Slug(f) in Featured(fs) && Feature(Slug(f)) == f
  {
    FeaturedIs(fs, Slug(f));
  }

  /** Module features reached over module features are the featured dependencies reached over
      featured dependencies. */
  lemma ChainsAgree(ms: Modules, fs: Features, a: string, b: string)
    requires Sound(ms, fs) && a in Featured(fs)
    ensures ReachesOn(FeatureGraph(fs), ModuleFeatures(fs), Feature(a), Feature(b))
       <==> ReachesOn(DependencyGraph(ms), Featured(fs), a, b)
  {
    var features := Restrict(FeatureGraph(fs), ModuleFeatures(fs));
    var dependencies := Restrict(DependencyGraph(ms), Featured(fs));
    FeaturedIs(fs, a);
    FeaturedIs(fs, b);
    assert Slug(Feature(a)) == a && Slug(Feature(b)) == b;
    if ReachesOn(FeatureGraph(fs), ModuleFeatures(fs), Feature(a), Feature(b)) {
      Widen(FeatureGraph(fs), ModuleFeatures(fs), Feature(a), Feature(b));
      var q :| Path(features, q) && Links(q, Feature(a), Feature(b));
      StepsAgree(ms, fs);
      Carried(features, ModuleFeatures(fs), dependencies, Slug, q);
    }
    if ReachesOn(DependencyGraph(ms), Featured(fs), a, b) {
      Widen(DependencyGraph(ms), Featured(fs), a, b);
      var p :| Path(dependencies, p) && Links(p, a, b);
      StepsAgree(ms, fs);
      Carried(dependencies, Featured(fs), features, Feature, p);
    }
  }

  lemma StepsAgree(ms: Modules, fs: Features)
    requires Sound(ms, fs)
    ensures var features := Restrict(FeatureGraph(fs), ModuleFeatures(fs));
            var dependencies := Restrict(DependencyGraph(ms), Featured(fs));
            && Answered(features, ModuleFeatures(fs), dependencies, Slug)
            && Answered(dependencies, Featured(fs), features, Feature)
  {
    var features := Restrict(FeatureGraph(fs), ModuleFeatures(fs));
    var dependencies := Restrict(DependencyGraph(ms), Featured(fs));
    forall f, e | (f, e) in features ensures Reaches(dependencies, Slug(f), Slug(e)) {
      SlugOf(fs, f);
      SlugOf(fs, e);
      StepIsDependency(ms, fs, Slug(f), Slug(e));
      OneStep(dependencies, Slug(f), Slug(e));
    }
    forall a, b | (a, b) in dependencies ensures Reaches(features, Feature(a), Feature(b)) {
      FeaturedIs(fs, a);
      FeaturedIs(fs, b);
      StepIsDependency(ms, fs, a, b);
      OneStep(features, Feature(a), Feature(b));
    }
    NoDetour(FeatureGraph(fs), ModuleFeatures(fs));
    NoDetour(DependencyGraph(ms), Featured(fs));
  }

  /** Enabling the feature links the crate: some feature it switches on names the dependency. */
  ghost predicate LinksCrate(fs: Features, feature: string, crate: string) {
    exists f :: f in fs && Reaches(FeatureGraph(fs), feature, f) && "dep:" + crate in fs[f]
  }

  /** So enabling a module links its crate and the crate of every featured module it depends on
      through featured ones; only a capability-only module may be left to be linked always, and
      then its feature has no bare `dep:` entry. */
  lemma CratesLinked(ms: Modules, fs: Features, a: string, b: string)
    requires Sound(ms, fs) && a in Featured(fs) && ReachesOn(DependencyGraph(ms), Featured(fs), a, b)
    ensures b in ms && Feature(b) in fs
    ensures LinksCrate(fs, Feature(a), ms[b].crateName) || (ms[b].capabilityOnly && "dep:" !in fs[Feature(b)])
  {
    Widen(DependencyGraph(ms), Featured(fs), a, b);
    FeaturedIs(fs, b);
    ChainsAgree(ms, fs, a, b);
    Widen(FeatureGraph(fs), ModuleFeatures(fs), Feature(a), Feature(b));
    assert GraphAccepted(ms, fs, b);
  }

  /** Enabling a module's feature switches on exactly the module features of its transitive
      dependencies. */
  ghost predicate EnablesExactly(ms: Modules, fs: Features) {
    forall a, b :: a in Featured(fs) && b in Featured(fs) ==>
      (Reaches(FeatureGraph(fs), Feature(a), Feature(b)) <==> Reaches(DependencyGraph(ms), a, b))
  }

  /** The checks give that guarantee whenever neither graph has an open detour: no `mod-`
      feature is switched on through a feature of another kind, and no featured module is a
      dependency only through modules without a feature. */
  lemma DetourFreeIsExact(ms: Modules, fs: Features)
    requires Sound(ms, fs)
    requires Bypassed(FeatureGraph(fs), ModuleFeatures(fs)) && Bypassed(DependencyGraph(ms), Featured(fs))
    ensures EnablesExactly(ms, fs)
  {
    StayOnExactly(FeatureGraph(fs), ModuleFeatures(fs));
    StayOnExactly(DependencyGraph(ms), Featured(fs));
    forall a, b | a in Featured(fs) && b in Featured(fs)
      ensures Reaches(FeatureGraph(fs), Feature(a), Feature(b)) <==> Reaches(DependencyGraph(ms), a, b)
    {
      FeaturedIs(fs, a);
      FeaturedIs(fs, b);
      ChainsAgree(ms, fs, a, b);
    }
  }

  /** Every detour of either graph leads where the other graph leads as well. */
  ghost predicate DetoursAgree(ms: Modules, fs: Features) {
    && (forall q :: Detour(FeatureGraph(fs), ModuleFeatures(fs), q) ==>
          Reaches(DependencyGraph(ms), Slug(q[0]), Slug(q[|q| - 1])))
    && (forall p :: Detour(DependencyGraph(ms), Featured(fs), p) ==>
          Reaches(FeatureGraph(fs), Feature(p[0]), Feature(p[|p| - 1])))
  }

  lemma DependenciesAnswered(ms: Modules, fs: Features)
    requires Sound(ms, fs) && DetoursAgree(ms, fs)
    ensures Answered(DependencyGraph(ms), Featured(fs), FeatureGraph(fs), Feature)
  {
    forall a, b | a in Featured(fs) && b in Featured(fs) && (a, b) in DependencyGraph(ms)
      ensures Reaches(FeatureGraph(fs), Feature(a), Feature(b))
    {
      StepIsDependency(ms, fs, a, b);
      OneStep(FeatureGraph(fs), Feature(a), Feature(b));
    }
  }

  lemma FeaturesAnswered(ms: Modules, fs: Features)
    requires Sound(ms, fs) && DetoursAgree(ms, fs)
    ensures Answered(FeatureGraph(fs), ModuleFeatures(fs), DependencyGraph(ms), Slug)
  {
    forall f, e | f in ModuleFeatures(fs) && e in ModuleFeatures(fs) && (f, e) in FeatureGraph(fs)
      ensures Reaches(DependencyGraph(ms), Slug(f), Slug(e))
    {
      SlugOf(fs, f);
      SlugOf(fs, e);
      StepIsDependency(ms, fs, Slug(f), Slug(e));
      OneStep(DependencyGraph(ms), Slug(f), Slug(e));
    }
  }

  /** The guarantee holds exactly when the detours of the two graphs agree: the check of single
      edges settles every other chain, of any length. */
  lemma ExactIffDetoursAgree(ms: Modules, fs: Features)
    requires Sound(ms, fs)
    ensures EnablesExactly(ms, fs) <==> DetoursAgree(ms, fs)
  {
    if EnablesExactly(ms, fs) {
      AgreeingDetours(ms, fs);
    }
    if DetoursAgree(ms, fs) {
      DependenciesAnswered(ms, fs);
      FeaturesAnswered(ms, fs);
      forall a, b | a in Featured(fs) && b in Featured(fs)
        ensures Reaches(FeatureGraph(fs), Feature(a), Feature(b)) <==> Reaches(DependencyGraph(ms), a, b)
      {
        ReachedTogether(ms, fs, a, b);
      }
    }
  }

  lemma ReachedTogether(ms: Modules, fs: Features, a: string, b: string)
    requires Answered(DependencyGraph(ms), Featured(fs), FeatureGraph(fs), Feature)
    requires Answered(FeatureGraph(fs), ModuleFeatures(fs), DependencyGraph(ms), Slug)
    requires a in Featured(fs) && b in Featured(fs)
    ensures Reaches(FeatureGraph(fs), Feature(a), Feature(b)) <==> Reaches(DependencyGraph(ms), a, b)
  {
    FeaturedIs(fs, a);
    FeaturedIs(fs, b);
    assert Slug(Feature(a)) == a && Slug(Feature(b)) == b;
    if Reaches(FeatureGraph(fs), Feature(a), Feature(b)) {
      var q :| Path(FeatureGraph(fs), q) && Links(q, Feature(a), Feature(b));
      Carried(FeatureGraph(fs), ModuleFeatures(fs), DependencyGraph(ms), Slug, q);
    }
    if Reaches(DependencyGraph(ms), a, b) {
      var p :| Path(DependencyGraph(ms), p) && Links(p, a, b);
      Carried(DependencyGraph(ms), Featured(fs), FeatureGraph(fs), Feature, p);
    }
  }

  lemma AgreeingDetours(ms: Modules, fs: Features)
    requires EnablesExactly(ms, fs)
    ensures DetoursAgree(ms, fs)
  {
    forall q | Detour(FeatureGraph(fs), ModuleFeatures(fs), q)
      ensures Reaches(DependencyGraph(ms), Slug(q[0]), Slug(q[|q| - 1]))
    {
      SlugOf(fs, q[0]);
      SlugOf(fs, q[|q| - 1]);
      assert Links(q, q[0], q[|q| - 1]);
      assert Reaches(FeatureGraph(fs), q[0], q[|q| - 1]);
    }
    forall p | Detour(DependencyGraph(ms), Featured(fs), p)
      ensures Reaches(FeatureGraph(fs), Feature(p[0]), Feature(p[|p| - 1]))
    {
      assert Links(p, p[0], p[|p| - 1]);
      assert Reaches(DependencyGraph(ms), p[0], p[|p| - 1]);
    }
  }

  // ------------------------------------------------------------ the two failures

  lemma FirstEdge(g: Graph, p: seq<string>)
    requires Path(g, p)
    ensures |p| > 1 ==> g != {}
  {
    if |p| > 1 { assert (p[0], p[0 + 1]) in g; }
  }

  lemma NoEdges(g: Graph, a: string, b: string)
    requires g == {} && a != b
    ensures !Reaches(g, a, b)
  {
    forall p | Path(g, p) ensures !Links(p, a, b) { FirstEdge(g, p); }
  }

  lemma TwoFeatures(fs: Features)
    requires forall f :: f in fs && "mod-" <= f ==> f == "mod-a" || f == "mod-b"
    ensures forall slug :: slug in Featured(fs) ==> slug == "a" || slug == "b"
  {
    forall slug | slug in Featured(fs) ensures slug == "a" || slug == "b" {
      FeaturedIs(fs, slug);
      SameOrNot(slug);
    }
  }

  lemma SameOrNot(slug: string)
    ensures Feature(slug) == "mod-a" ==> slug == "a"
    ensures Feature(slug) == "mod-b" ==> slug == "b"
  {
    assert Feature(slug)[4..] == slug;
    assert "mod-a"[4..] == "a" && "mod-b"[4..] == "b";
  }

  function Plain(crate: string, dependsOn: seq<string>): Spec {
    Spec(false, false, crate, false, dependsOn)
  }

  lemma NoModuleEntry(entries: set<string>)
    requires forall e :: e in entries ==> e != "" && e[0] != 'm'
    ensures ModuleEntries(entries) == {}
  {
    forall e | e in entries ensures !("mod-" <= e) { assert e[0] != "mod-"[0]; }
  }

  /** A feature of another kind lets `mod-a` switch on `mod-b` although neither module depends
      on the other; every check accepts it. */
  lemma SideDoor()
    ensures var ms: Modules := map["a" := Plain("a", []), "b" := Plain("b", [])];
            var fs: Features := map["mod-a" := {"dep:a", "extra"}, "extra" := {"mod-b"}, "mod-b" := {"dep:b"}];
            Sound(ms, fs) && !EnablesExactly(ms, fs)
  {
    var ms: Modules := map["a" := Plain("a", []), "b" := Plain("b", [])];
    var fs: Features := map["mod-a" := {"dep:a", "extra"}, "extra" := {"mod-b"}, "mod-b" := {"dep:b"}];
    assert Feature("a") == "mod-a" && Feature("b") == "mod-b";
    TwoFeatures(fs);
    FeaturedIs(fs, "a");
    FeaturedIs(fs, "b");
    assert DependencyFeatures([], fs) == {};
    NoModuleEntry({"dep:a", "extra"});
    NoModuleEntry({"dep:b"});
    assert "dep:" + "a" == "dep:a" && "dep:" + "b" == "dep:b";
    assert GraphAccepted(ms, fs, "a") && GraphAccepted(ms, fs, "b");
    var p := ["mod-a", "extra", "mod-b"];
    assert Path(FeatureGraph(fs), p) && Links(p, "mod-a", "mod-b");
    assert DependencyGraph(ms) == {};
    NoEdges(DependencyGraph(ms), "a", "b");
  }

  /** An optional module behind a required one is a transitive dependency whose feature is not
      switched on; every check accepts it. */
  lemma RequiredBridge()
    ensures var core := Spec(true, false, "core", false, ["b"]);
            var ms: Modules := map["a" := Plain("a", ["core"]), "core" := core, "b" := Plain("b", [])];
            var fs: Features := map["mod-a" := {"dep:a"}, "mod-b" := {"dep:b"}];
            Sound(ms, fs) && !EnablesExactly(ms, fs)
  {
    var core := Spec(true, false, "core", false, ["b"]);
    var ms: Modules := map["a" := Plain("a", ["core"]), "core" := core, "b" := Plain("b", [])];
    var fs: Features := map["mod-a" := {"dep:a"}, "mod-b" := {"dep:b"}];
    assert Feature("a") == "mod-a" && Feature("b") == "mod-b";
    TwoFeatures(fs);
    FeaturedIs(fs, "a");
    FeaturedIs(fs, "b");
    TrimSolid(Rust, "core");
    TrimSolid(Rust, "b");
    assert |Feature("core")| == 8;
    assert DependencyFeatures(["core"], fs) == {} && DependencyFeatures([], fs) == {};
    NoModuleEntry({"dep:a"});
    NoModuleEntry({"dep:b"});
    assert "dep:" + "a" == "dep:a" && "dep:" + "b" == "dep:b";
    assert GraphAccepted(ms, fs, "a") && GraphAccepted(ms, fs, "b") && GraphAccepted(ms, fs, "core");
    BridgePath(ms);
    NoFeatureSteps(fs);
    NoEdges(FeatureGraph(fs), "mod-a", "mod-b");
  }

  lemma BridgePath(ms: Modules)
    requires "a" in ms && ms["a"].dependsOn == ["core"] && "core" in ms && ms["core"].dependsOn == ["b"]
    ensures Reaches(DependencyGraph(ms), "a", "b")
  {
    TrimSolid(Rust, "core");
    TrimSolid(Rust, "b");
    EdgeOf(ms, "a", 0);
    EdgeOf(ms, "core", 0);
    var p := ["a", "core", "b"];
    assert Path(DependencyGraph(ms), p) && Links(p, "a", "b");
  }

  lemma NoFeatureSteps(fs: Features)
    requires fs == map["mod-a" := {"dep:a"}, "mod-b" := {"dep:b"}]
    ensures FeatureGraph(fs) == {}
  {
    assert "dep:a"[0] != "mod-a"[0] && "dep:a"[0] != "mod-b"[0];
    assert "dep:b"[0] != "mod-a"[0] && "dep:b"[0] != "mod-b"[0];
  }

  /** A capability-only module whose feature names no dependency is accepted; an ordinary one
      with the same feature is not; an extension needs no feature at all. */
  lemma AlwaysLinked(slug: string, crate: string)
    ensures var fs: Features := map[Feature(slug) := {}];
            && GraphAccepted(map[slug := Spec(false, false, crate, true, [])], fs, slug)
            && !GraphAccepted(map[slug := Plain(crate, [])], fs, slug)
            && GraphAccepted(map[slug := Spec(false, true, crate, false, [])], map[], slug)
  {
    var fs: Features := map[Feature(slug) := {}];
    assert DependencyFeatures([], fs) == {} && ModuleEntries({}) == {};
  }
}
