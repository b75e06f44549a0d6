/** What the bound acceptance release manifest holds, read by property names from the identity it was built from. */
module ReleaseManifest {
  import opened CanonicalJson
  import opened Wrappers

  /** The value behind a path of property names. */
  function At(v: Json, path: seq<Text>): Option<Json>
    decreases |path|
  {
    if path == [] then Some(v)
    else
      match Get(v, path[0])
      case None => None
      case Some(inner) => At(inner, path[1..])
  }

  function CanonicalOf(v: Option<Json>): Option<Json> {
    match v
    case None => None
    case Some(inner) => Some(Canonical(inner))
  }

  /** Looking up a property finds the one that there is. */
  lemma {:induction false} FindIff(fields: seq<Field>, key: Text, value: Json)
    requires DistinctKeys(fields)
    ensures Find(fields, key) == Some(value) <==> Field(key, value) in fields
  {
    if fields != [] {
      FindIff(fields[1..], key, value);
      assert fields == [fields[0]] + fields[1..];
      assert forall f | f in fields[1..] :: f.key != fields[0].key;
    }
  }

  /** Canonicalising keeps every property under its name, its value made canonical, and adds none. */
  lemma PropertyIsKept(v: Json, key: Text)
    requires WellFormed(v)
    ensures Get(Canonical(v), key) == CanonicalOf(Get(v, key))
  {
    hide SortByKey, FromEntries, WellFormed, DistinctKeys;
    if v.Object? {
      hide Canonical;
      var fields := v.fields;
      WellFormedFields(fields);
      CanonicalIsWellFormed(v);
      CanonicalObject(fields);
      var entered := Canonical(v).fields;
      WellFormedFields(entered);
      CanonicalMembers(fields);
      if Get(v, key).Some? {
        FindIff(fields, key, Get(v, key).value);
        FindIff(entered, key, Canonical(Get(v, key).value));
      } else if Get(Canonical(v), key).Some? {
        FindIff(entered, key, Get(Canonical(v), key).value);
        var i :| 0 <= i < |fields| && Field(key, Get(Canonical(v), key).value) == Field(fields[i].key, Canonical(fields[i].value));
        assert fields[i] in fields && fields[i] == Field(key, fields[i].value);
        FindIff(fields, key, fields[i].value);
      }
    }
  }

  lemma {:induction false} PathIsKept(v: Json, path: seq<Text>)
    requires WellFormed(v)
    ensures At(Canonical(v), path) == CanonicalOf(At(v, path))
    decreases |path|
  {
    hide WellFormed, Canonical, Get;
    if path != [] {
      PropertyIsKept(v, path[0]);
      if Get(v, path[0]).Some? {
        FoundIsWellFormed(v, path[0]);
        PathIsKept(Get(v, path[0]).value, path[1..]);
      }
    }
  }

  /** A path of one name, and of two. */
  lemma ShortPaths(v: Json, a: Text, b: Text)
    ensures At(v, [a]) == Get(v, a)
    ensures At(v, [a, b]) == if Get(v, a).None? then None else Get(Get(v, a).value, b)
  {
    assert [a][1..] == [] && [a, b][1..] == [b] && [b][1..] == [];
    if Get(v, a).Some? {
      var inner := Get(v, a).value;
      assert At(v, [a, b]) == At(inner, [b]);
      assert Get(inner, b).Some? ==> At(inner, [b]) == At(Get(inner, b).value, []);
    }
  }

  /** What stands where in the record the manifest is made of. */
  lemma RecordHolds(p: Parts)
    ensures Get(p.Manifest(), Name("backend")) == Some(p.backend)
    ensures Get(p.Manifest(), Name("vision")) == Some(p.visionCore)
    ensures Get(p.Manifest(), Name("schemaVersion")) == Some(String(Name("vem-runtime-testbed-acceptance-release/v1")))
    ensures Get(p.Manifest(), Name("vem")) == Some(Object(p.SourceFields()))
    ensures Get(p.Manifest(), Name("windowsRuntime")) == Some(Object(p.RuntimeFields()))
    ensures forall key :: Get(p.Manifest(), key).Some? ==>
              key in {Name("backend"), Name("schemaVersion"), Name("vem"), Name("vision"), Name("windowsRuntime")}
  {
    var fields := p.ManifestFields();
    assert |fields[0].key| == 7 && |fields[1].key| == 13 && |fields[2].key| == 3 && |fields[3].key| == 6 && |fields[4].key| == 14;
    assert DistinctKeys(fields);
    FindIff(fields, Name("backend"), fields[0].value);
    FindIff(fields, Name("schemaVersion"), fields[1].value);
    FindIff(fields, Name("vem"), fields[2].value);
    FindIff(fields, Name("vision"), fields[3].value);
    FindIff(fields, Name("windowsRuntime"), fields[4].value);
    forall key | Find(fields, key).Some?
      ensures key in {Name("backend"), Name("schemaVersion"), Name("vem"), Name("vision"), Name("windowsRuntime")}
    {
      FindFinds(fields, key);
    }
  }

  lemma InnerRecordsHold(p: Parts)
    ensures Get(Object(p.SourceFields()), Name("sourceCommit")) == Some(p.githubSha)
    ensures Get(Object(p.RuntimeFields()), Name("artifacts")) == Some(p.artifacts)
    ensures Get(Object(p.RuntimeFields()), Name("commit")) == Some(p.commit)
    ensures Get(Object(p.RuntimeFields()), Name("sourceDigest")) == Some(p.sourceDigest)
  {
    var fields := p.RuntimeFields();
    assert |fields[0].key| == 9 && |fields[1].key| == 6 && |fields[2].key| == 12;
    assert DistinctKeys(fields);
    FindIff(fields, Name("artifacts"), p.artifacts);
    FindIff(fields, Name("commit"), p.commit);
    FindIff(fields, Name("sourceDigest"), p.sourceDigest);
  }

  predicate IsObjectAt(v: Json, path: seq<Text>) {
    At(v, path).Some? && At(v, path).value.Object?
  }

  /** Which identities build: the required records are objects, the texts are there, and the checks pass. */
  lemma BuildsIff(identity: Json, checks: Json -> bool)
    ensures Build(identity, checks).Ok? <==>
              && checks(identity)
              && IsObjectAt(identity, [Name("backend")]) && IsObjectAt(identity, [Name("visionCore")])
              && IsObjectAt(identity, [Name("runtimeArtifacts"), Name("artifacts")])
              && At(identity, [Name("githubSha")]).Some?
              && At(identity, [Name("runtimeArtifacts"), Name("commit")]).Some?
              && At(identity, [Name("runtimeArtifacts"), Name("sourceDigest")]).Some?
  {
    hide At, Name, Canonical;
    ShortPaths(identity, Name("backend"), []);
    ShortPaths(identity, Name("githubSha"), []);
    ShortPaths(identity, Name("visionCore"), []);
    ShortPaths(identity, Name("runtimeArtifacts"), Name("artifacts"));
    ShortPaths(identity, Name("runtimeArtifacts"), Name("commit"));
    ShortPaths(identity, Name("runtimeArtifacts"), Name("sourceDigest"));
  }

  /** Where the manifest's values come from: its paths, and those of the identity. */
  predicate ComesFrom(manifest: Json, identity: Json, target: seq<Text>, source: seq<Text>) {
    At(identity, source).Some? && At(manifest, target) == Some(Canonical(At(identity, source).value))
  }

  /** The manifest of an identity: which of its values stand where, in canonical form, and nothing beside them. */
  lemma ManifestHolds(identity: Json, checks: Json -> bool)
    requires WellFormed(identity) && Build(identity, checks).Ok?
    ensures var m := Build(identity, checks).value;
            && ComesFrom(m, identity, [Name("backend")], [Name("backend")])
            && ComesFrom(m, identity, [Name("vem"), Name("sourceCommit")], [Name("githubSha")])
            && ComesFrom(m, identity, [Name("vision")], [Name("visionCore")])
            && ComesFrom(m, identity, [Name("windowsRuntime"), Name("artifacts")], [Name("runtimeArtifacts"), Name("artifacts")])
            && ComesFrom(m, identity, [Name("windowsRuntime"), Name("commit")], [Name("runtimeArtifacts"), Name("commit")])
            && ComesFrom(m, identity, [Name("windowsRuntime"), Name("sourceDigest")], [Name("runtimeArtifacts"), Name("sourceDigest")])
            && At(m, [Name("schemaVersion")]) == Some(String(Name("vem-runtime-testbed-acceptance-release/v1")))
            && forall key :: Get(m, key).Some? ==>
                 key in {Name("backend"), Name("schemaVersion"), Name("vem"), Name("vision"), Name("windowsRuntime")}
  {
    hide WellFormed, Get, Name, Parts.Manifest, Parts.SourceFields, Parts.RuntimeFields, At, Parts.AreWellFormed;
    var p := PartsOf(identity).value;
    PartsAreWellFormed(identity);
    ManifestIsWellFormed(p);
    RecordHolds(p);
    InnerRecordsHold(p);
    var r := p.Manifest();
    ShortPaths(identity, Name("backend"), []);
    ShortPaths(identity, Name("githubSha"), []);
    ShortPaths(identity, Name("visionCore"), []);
    ShortPaths(identity, Name("runtimeArtifacts"), Name("artifacts"));
    ShortPaths(identity, Name("runtimeArtifacts"), Name("commit"));
    ShortPaths(identity, Name("runtimeArtifacts"), Name("sourceDigest"));
    Comes(r, [Name("backend")], Name("backend"), []);
    Comes(r, [Name("schemaVersion")], Name("schemaVersion"), []);
    Comes(r, [Name("vision")], Name("vision"), []);
    Comes(r, [Name("vem"), Name("sourceCommit")], Name("vem"), Name("sourceCommit"));
    Comes(r, [Name("windowsRuntime"), Name("artifacts")], Name("windowsRuntime"), Name("artifacts"));
    Comes(r, [Name("windowsRuntime"), Name("commit")], Name("windowsRuntime"), Name("commit"));
    Comes(r, [Name("windowsRuntime"), Name("sourceDigest")], Name("windowsRuntime"), Name("sourceDigest"));
    forall key
      ensures Get(Canonical(r), key).Some? ==> Get(r, key).Some?
    {
      PropertyIsKept(r, key);
    }
  }

  lemma Comes(r: Json, path: seq<Text>, a: Text, b: Text)
    requires WellFormed(r) && (path == [a] || path == [a, b])
    ensures At(Canonical(r), path) == CanonicalOf(if path == [a] then Get(r, a) else if Get(r, a).None? then None else Get(Get(r, a).value, b))
  {
    hide WellFormed, Canonical, Get, At;
    PathIsKept(r, path);
    ShortPaths(r, a, b);
  }
}
