// Clustername: which clusters a shortened name can still tell apart.
module ClusterNames {
  import opened Text
  import opened Hashname

  /** The ports of services are int32 values. */
  type Port32 = n: nat | n < 0x8000_0000

  /** The peer validation of an upstream: the secret that holds the CA, and the subject name. */
  type Validation = Option<(string, string)>

  /** Everything a cluster name is computed from. */
  datatype ClusterId = ClusterId(service: string, port: Port32, healthPath: string, validation: Validation)

  predicate IsHex(c: char) { '0' <= c <= '9' || 'a' <= c <= 'f' }

  /** A hexadecimal SHA-256 digest, and the ten digits kept of a SHA-1 digest. */
  type Digest64 = s: string | |s| == DIGEST_LENGTH && forall i :: 0 <= i < |s| ==> IsHex(s[i]) witness seq(DIGEST_LENGTH, _ => '0')
  type Digest10 = s: string | |s| == 10 && forall i :: 0 <= i < |s| ==> IsHex(s[i]) witness seq(10, _ => '0')

  datatype Digests = Digests(sha256: string -> Digest64, sha1: string -> Digest10)

  const NAME_LIMIT := 60
  const PART_LIMIT := 15
  const HEALTH_SETTINGS := "30s5s31"

  function ValidationText(v: Validation): string { if v.Some? then v.value.0 + v.value.1 else "" }

  /** The text whose short digest tells clusters of one service port apart. */
  function Settings(id: ClusterId): string {
    (if id.healthPath != "" then HEALTH_SETTINGS + id.healthPath else "") + ValidationText(id.validation)
  }

  function NameParts(d: Digests, namespace: string, id: ClusterId): seq<string> {
    [namespace, id.service, Itoa(id.port), d.sha1(Settings(id))]
  }

  /** The parts joined in full. */
  function FullName(d: Digests, namespace: string, id: ClusterId): string { Join(NameParts(d, namespace, id), '_') }

  /** Clustername. */
  function ClusterName(d: Digests, namespace: string, id: ClusterId): string {
    NameOf(NAME_LIMIT, NameParts(d, namespace, id), d.sha256(FullName(d, namespace, id)))
  }

  ghost predicate Plain(s: string) { '_' !in s }

  ghost predicate Long(d: Digests, namespace: string, id: ClusterId) { |FullName(d, namespace, id)| >= NAME_LIMIT }

  /** The digits that mark a cut part. */
  function Mark(d: Digests, namespace: string, id: ClusterId): string { d.sha256(FullName(d, namespace, id))[..SHORT_HASH] }

  function CutService(d: Digests, namespace: string, id: ClusterId): string {
    Truncate(PART_LIMIT, id.service, Mark(d, namespace, id))
  }

  /** The parts a name shows: the service is cut before the namespace, the port and the digest never. */
  ghost function Shown(d: Digests, namespace: string, id: ClusterId): seq<string> {
    if !Long(d, namespace, id) then NameParts(d, namespace, id)
    else
      var some := [namespace, CutService(d, namespace, id), Itoa(id.port), d.sha1(Settings(id))];
      if |Join(some, '_')| < NAME_LIMIT then some
      else [Truncate(PART_LIMIT, namespace, Mark(d, namespace, id))] + some[1..]
  }

  // ---------------------------------------------------------------- the shape of a name

  function Pow10(k: nat): nat { if k == 0 then 1 else 10 * Pow10(k - 1) }

  lemma {:induction false} ItoaLength(n: nat, k: nat)
    requires k >= 1 && n < Pow10(k)
    ensures |Itoa(n)| <= k
  {
    if n >= 10 {
      assert k > 1;
      assert n / 10 < Pow10(k - 1);
      ItoaLength(n / 10, k - 1);
    }
  }

  lemma PortLength(p: Port32)
    ensures |Itoa(p)| <= 10
  {
    assert Pow10(5) == 100000;
    assert Pow10(10) == 10000000000;
    ItoaLength(p, 10);
  }

  lemma JoinFour(a: string, b: string, c: string, e: string)
    ensures |Join([a, b, c, e], '_')| == |a| + |b| + |c| + |e| + 3
  {
    assert [a, b, c, e][1..] == [b, c, e];
    assert [b, c, e][1..] == [c, e];
    assert [c, e][1..] == [e];
    assert Join([c, e], '_') == c + ['_'] + e;
    assert Join([b, c, e], '_') == b + ['_'] + Join([c, e], '_');
  }

  /** The name is the shown parts, so it always fits and never falls back to the bare digest. */
  lemma NameShape(d: Digests, namespace: string, id: ClusterId)
    ensures ClusterName(d, namespace, id) == Join(Shown(d, namespace, id), '_') && |ClusterName(d, namespace, id)| < NAME_LIMIT
  {
    var (parts, hash) := (NameParts(d, namespace, id), d.sha256(FullName(d, namespace, id)));
    var (mark, some) := (Mark(d, namespace, id), [namespace, CutService(d, namespace, id), Itoa(id.port), d.sha1(Settings(id))]);
    PortLength(id.port);
    assert NAME_LIMIT / 4 == PART_LIMIT;
    assert Cut(NAME_LIMIT, parts, hash, 4) == parts;
    assert Cut(NAME_LIMIT, parts, hash, 3) == parts;
    assert Cut(NAME_LIMIT, parts, hash, 2) == parts;
    assert Cut(NAME_LIMIT, parts, hash, 1) == some;
    var all := [Truncate(PART_LIMIT, namespace, mark)] + some[1..];
    assert Cut(NAME_LIMIT, parts, hash, 0) == all;
    JoinFour(all[0], all[1], all[2], all[3]);
    assert all == [all[0], all[1], all[2], all[3]];
    CutFromShape(parts, hash, some, all);
  }

  lemma CutFromShape(parts: seq<string>, hash: Digest64, some: seq<string>, all: seq<string>)
    requires |parts| == 4 && |Join(all, '_')| < NAME_LIMIT
    requires forall n :: 2 <= n <= 4 ==> Cut(NAME_LIMIT, parts, hash, n) == parts
    requires Cut(NAME_LIMIT, parts, hash, 1) == some && Cut(NAME_LIMIT, parts, hash, 0) == all
    ensures NameOf(NAME_LIMIT, parts, hash) ==
            Join(if |Join(parts, '_')| < NAME_LIMIT then parts else if |Join(some, '_')| < NAME_LIMIT then some else all, '_')
  {
    assert CutFrom(NAME_LIMIT, parts, hash, 0) == Join(all, '_');
    assert CutFrom(NAME_LIMIT, parts, hash, 1) == Join(if |Join(some, '_')| < NAME_LIMIT then some else all, '_');
    assert |Join(parts, '_')| >= NAME_LIMIT ==>
      CutFrom(NAME_LIMIT, parts, hash, 4) == CutFrom(NAME_LIMIT, parts, hash, 3) == CutFrom(NAME_LIMIT, parts, hash, 2)
      == CutFrom(NAME_LIMIT, parts, hash, 1);
  }

  lemma PlainPart(d: Digests, namespace: string, id: ClusterId, s: string)
    requires Plain(s)
    ensures Plain(Truncate(PART_LIMIT, s, Mark(d, namespace, id)))
  {
  }

  lemma ShownSplits(d: Digests, namespace: string, id: ClusterId)
    requires Plain(namespace) && Plain(id.service)
    ensures Split(ClusterName(d, namespace, id), '_') == Shown(d, namespace, id)
  {
    NameShape(d, namespace, id);
    PlainPart(d, namespace, id, namespace);
    PlainPart(d, namespace, id, id.service);
    SplitJoin(Shown(d, namespace, id), '_');
  }

  // ---------------------------------------------------------------- distinct names

  /** The service and the namespace as a name shows them, in full or cut. */
  ghost function ShownService(d: Digests, namespace: string, id: ClusterId): string { Shown(d, namespace, id)[1] }

  ghost function ShownNamespace(d: Digests, namespace: string, id: ClusterId): string { Shown(d, namespace, id)[0] }

  /** Exactly when two names are equal, for all digests and all lengths. */
  lemma EqualNamesIff(d: Digests, namespace: string, a: ClusterId, b: ClusterId)
    requires Plain(namespace) && Plain(a.service) && Plain(b.service)
    ensures ClusterName(d, namespace, a) == ClusterName(d, namespace, b) <==>
            && a.port == b.port && d.sha1(Settings(a)) == d.sha1(Settings(b))
            && ShownService(d, namespace, a) == ShownService(d, namespace, b)
            && ShownNamespace(d, namespace, a) == ShownNamespace(d, namespace, b)
  {
    var (p, q) := (Shown(d, namespace, a), Shown(d, namespace, b));
    NameShape(d, namespace, a);
    NameShape(d, namespace, b);
    ShownSplits(d, namespace, a);
    ShownSplits(d, namespace, b);
    if Itoa(a.port) == Itoa(b.port) { ItoaInjective(a.port, b.port); }
    assert p == q <==> p[0] == q[0] && p[1] == q[1] && p[2] == q[2] && p[3] == q[3];
  }

  /**
   * What can make two names equal by accident: the marks of two cut names collide, or a service is literally
   * called what the other name shows of its service.
   */
  ghost predicate Tellable(d: Digests, namespace: string, a: ClusterId, b: ClusterId) {
    && (Long(d, namespace, a) && Long(d, namespace, b) && Mark(d, namespace, a) == Mark(d, namespace, b) ==>
          FullName(d, namespace, a) == FullName(d, namespace, b))
    && (Long(d, namespace, a) && CutService(d, namespace, a) == b.service ==> a.service == b.service)
    && (Long(d, namespace, b) && CutService(d, namespace, b) == a.service ==> a.service == b.service)
  }

  lemma CutMark(d: Digests, namespace: string, a: ClusterId, b: ClusterId)
    requires |a.service| > PART_LIMIT && |b.service| > PART_LIMIT
    requires CutService(d, namespace, a) == CutService(d, namespace, b)
    ensures Mark(d, namespace, a) == Mark(d, namespace, b)
  {
    var (m, n) := (Mark(d, namespace, a), Mark(d, namespace, b));
    assert CutService(d, namespace, a)[9..] == m;
    assert CutService(d, namespace, b)[9..] == n;
  }

  lemma FullNameSplits(d: Digests, namespace: string, a: ClusterId, b: ClusterId)
    requires Plain(namespace) && Plain(a.service) && Plain(b.service)
    requires FullName(d, namespace, a) == FullName(d, namespace, b)
    ensures a.service == b.service
  {
    SplitJoin(NameParts(d, namespace, a), '_');
    SplitJoin(NameParts(d, namespace, b), '_');
    assert NameParts(d, namespace, a)[1] == NameParts(d, namespace, b)[1];
  }

  /** Equal names mean the same service port and the same digest of the settings. */
  lemma DistinctNames(d: Digests, namespace: string, a: ClusterId, b: ClusterId)
    requires Plain(namespace) && Plain(a.service) && Plain(b.service) && Tellable(d, namespace, a, b)
    ensures ClusterName(d, namespace, a) == ClusterName(d, namespace, b) <==>
            a.service == b.service && a.port == b.port && d.sha1(Settings(a)) == d.sha1(Settings(b))
  {
    EqualNamesIff(d, namespace, a, b);
    if ClusterName(d, namespace, a) == ClusterName(d, namespace, b) {
      if a.service != b.service {
        assert Long(d, namespace, a) && Long(d, namespace, b);
        CutMark(d, namespace, a, b);
        FullNameSplits(d, namespace, a, b);
      }
    } else {
      assert NameParts(d, namespace, a) != NameParts(d, namespace, b);
    }
  }

  /** Below the length limit nothing more is needed. */
  lemma ShortNamesAreDistinct(d: Digests, namespace: string, a: ClusterId, b: ClusterId)
    requires Plain(namespace) && Plain(a.service) && Plain(b.service)
    requires |FullName(d, namespace, a)| < NAME_LIMIT && |FullName(d, namespace, b)| < NAME_LIMIT
    requires ClusterName(d, namespace, a) == ClusterName(d, namespace, b)
    ensures a.service == b.service && a.port == b.port && d.sha1(Settings(a)) == d.sha1(Settings(b))
  {
    DistinctNames(d, namespace, a, b);
  }

  /** Whatever the digests are, a service called like the cut form of a long name takes over that name. */
  lemma CutNameCanBeTaken(d: Digests, namespace: string, b: ClusterId)
    requires |b.service| > PART_LIMIT && Long(d, namespace, b) && !Long(d, namespace, b.(service := CutService(d, namespace, b)))
    ensures var a := b.(service := CutService(d, namespace, b));
            a.service != b.service && ClusterName(d, namespace, a) == ClusterName(d, namespace, b)
  {
    NameShape(d, namespace, b.(service := CutService(d, namespace, b)));
    NameShape(d, namespace, b);
  }

  /** Two clusters of one validation are told apart by their health checks. */
  lemma HealthCheckTells(service: string, port: Port32, a: string, b: string, v: Validation)
    ensures Settings(ClusterId(service, port, a, v)) == Settings(ClusterId(service, port, b, v)) <==> a == b
  {
    var (x, y, t) := (Settings(ClusterId(service, port, a, v)), Settings(ClusterId(service, port, b, v)), ValidationText(v));
    assert x[..|x| - |t|] == (if a != "" then HEALTH_SETTINGS + a else "");
    assert y[..|y| - |t|] == (if b != "" then HEALTH_SETTINGS + b else "");
    assert a != "" ==> (HEALTH_SETTINGS + a)[|HEALTH_SETTINGS|..] == a;
    assert b != "" ==> (HEALTH_SETTINGS + b)[|HEALTH_SETTINGS|..] == b;
  }

  /** Without a health check the settings are the secret and the host, and nothing without TLS. */
  lemma SettingsAre(service: string, port: Port32, path: string, secret: string, host: string)
    ensures Settings(ClusterId(service, port, "", None)) == "" && Settings(ClusterId(service, port, "", Some((secret, host)))) == secret + host
    ensures path != "" ==> Settings(ClusterId(service, port, path, None)) == "30s5s31" + path
  {
  }
}
