/** The CLI launcher's decisions: the Node.js version gate (`checkNodeVersion`)
    and the dispatch on the configured load mode. */
module StartScript {
  import opened Wrappers

  /** A Node.js version `major.minor.patch`, already split into numbers. */
  datatype Version = Version(major: nat, minor: nat, patch: nat)

  /** The oldest Node.js release the CLI accepts. */
  const Target: Version := Version(20, 10, 0)

  /** The version gate, written the way the launcher writes it: a strictly
      newer major, or the same major with a strictly newer minor, or the same
      major and minor with a patch at least as large. */
  function IsTargetVersion(v: Version): (ok: bool)
    ensures v.major > 20 ==> ok
    ensures v.major < 20 ==> !ok
    ensures v.major == 20 && v.minor < 10 ==> !ok
    ensures v == Version(20, 10, 0) ==> ok
    ensures ok <==> LexLe(Components(Target), Components(v))
  {
    var accepted :=
      || v.major > Target.major
      || (v.major == Target.major && v.minor > Target.minor)
      || (v.major == Target.major && v.minor == Target.minor && v.patch >= Target.patch);
    LexLeTriple(Target, v);
    accepted
  }

  /** The version as the list of its numeric components, most significant first. */
  function Components(v: Version): seq<nat>
  {
    [v.major, v.minor, v.patch]
  }

  /** Lexicographic order on equally long lists of naturals: an independent
      statement of "at least as new as". */
  predicate LexLe(a: seq<nat>, b: seq<nat>)
    requires |a| == |b|
    decreases |a|
  {
    |a| == 0 || a[0] < b[0] || (a[0] == b[0] && LexLe(a[1..], b[1..]))
  }

  /** On triples, the lexicographic order is the three-way disjunction the
      launcher spells out. */
  lemma LexLeTriple(w: Version, v: Version)
    ensures LexLe(Components(w), Components(v)) <==>
      || v.major > w.major
      || (v.major == w.major && v.minor > w.minor)
      || (v.major == w.major && v.minor == w.minor && v.patch >= w.patch)
  {
    var a, b := Components(w), Components(v);
    assert a[1..] == [w.minor, w.patch] && b[1..] == [v.minor, v.patch];
    assert a[2..] == [w.patch] && b[2..] == [v.patch];
    assert a[1..][1..] == a[2..] && b[1..][1..] == b[2..];
    assert a[2..][1..] == [] && b[2..][1..] == [];
    assert LexLe(a[2..], b[2..]) <==> v.patch >= w.patch;
    assert LexLe(a[1..], b[1..]) <==> v.minor > w.minor || (v.minor == w.minor && v.patch >= w.patch);
  }

  /** The lexicographic order is transitive. */
  lemma {:induction false} LexLeTransitive(a: seq<nat>, b: seq<nat>, c: seq<nat>)
    requires |a| == |b| == |c|
    requires LexLe(a, b) && LexLe(b, c)
    ensures LexLe(a, c)
    decreases |a|
  {
    if |a| > 0 && a[0] == b[0] && b[0] == c[0] {
      LexLeTransitive(a[1..], b[1..], c[1..]);
    }
  }

  /** Acceptance is monotone: a version at least as new as an accepted one is
      accepted too. */
  lemma AcceptanceIsMonotone(v: Version, w: Version)
    requires IsTargetVersion(v)
    requires LexLe(Components(v), Components(w))
    ensures IsTargetVersion(w)
  {
    LexLeTransitive(Components(Target), Components(v), Components(w));
  }

  /** `checkNodeVersion`: the exit status the gate forces, if any. A rejected
      version ends the process with status 1; an accepted one lets startup go on. */
  function CheckNodeVersion(v: Version): (exitStatus: Option<int>)
    ensures exitStatus == Some(1) <==> !LexLe(Components(Target), Components(v))
    ensures exitStatus == None <==> LexLe(Components(Target), Components(v))
  {
    if IsTargetVersion(v) then None else Some(1)
  }

  /** The value of the `loadMode` option, as the launcher reads it. */
  datatype LoadMode = LoadMode(name: string)

  /** What the launcher does: exit at the version gate, or dispatch on the load mode. */
  datatype StartOutcome =
    | Exit(status: int)   // the version gate failed: exit with this status
    | StartTs             // register the TypeScript loader, then import the app entry
    | StartJs             // import the app's compiled JavaScript entry
    | UnknownLoadMode     // print the error and start nothing

  /** The whole decision of the launcher: gate on the Node.js version, then
      dispatch on the load mode; `'ts'` and `'js'` are the only valid modes. */
  function Start(v: Version, mode: LoadMode): (o: StartOutcome)
    ensures o == Exit(1) <==> !IsTargetVersion(v)
    ensures !o.Exit? ==> LexLe(Components(Target), Components(v))
    ensures o == StartTs <==> IsTargetVersion(v) && mode.name == "ts"
    ensures o == StartJs <==> IsTargetVersion(v) && mode.name == "js"
    ensures o == UnknownLoadMode <==> IsTargetVersion(v) && mode.name != "ts" && mode.name != "js"
  {
    match CheckNodeVersion(v)
    case Some(status) => Exit(status)
    case None =>
      if mode.name == "ts" then StartTs
      else if mode.name == "js" then StartJs
      else UnknownLoadMode
  }
}
