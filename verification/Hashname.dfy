// Bounded names: joining parts, and shortening them with a digest when they are too long.
module Hashname {
  import opened Text

  const SHORT_HASH := 6
  const DIGEST_LENGTH := 64

  function Min(a: int, b: int): int { if a > b then b else a }

  /** Cuts s to l bytes, ending it with the suffix when there is room for that. */
  function Truncate(l: nat, s: string, suffix: string): (r: string)
    ensures |r| <= l
    ensures |s| <= l ==> r == s
    ensures |s| > l ==> |r| == l
    ensures |s| > l > |suffix| ==> r[..l - |suffix| - 1] <= s && r[l - |suffix| - 1..] == "-" + suffix
    ensures |s| > l && l <= |suffix| ==> r <= suffix
  {
    if l >= |s| then s
    else if l <= |suffix| then suffix[..Min(l, |suffix|)]
    else s[..l - |suffix| - 1] + "-" + suffix
  }

  /** The parts with all but the first n of them cut to an equal share of l. */
  function Cut(l: nat, parts: seq<string>, hash: string, n: nat): (r: seq<string>)
    requires n <= |parts| && |hash| == DIGEST_LENGTH
    ensures |r| == |parts| && (forall i :: 0 <= i < n ==> r[i] == parts[i])
    ensures forall i :: n <= i < |parts| ==> r[i] == Truncate(l / |parts|, parts[i], hash[..SHORT_HASH])
  {
    seq(|parts|, i requires 0 <= i < |parts| => if i < n then parts[i] else Truncate(l / |parts|, parts[i], hash[..SHORT_HASH]))
  }

  function CutName(l: nat, parts: seq<string>, hash: string, n: nat): string
    requires n <= |parts| && |hash| == DIGEST_LENGTH
  {
    Join(Cut(l, parts, hash, n), '_')
  }

  /** The name is the join with as few parts cut as needed to get below l, counted from the end. */
  ghost predicate CutsFewest(l: nat, parts: seq<string>, hash: string, name: string, n: nat)
    requires |hash| == DIGEST_LENGTH
  {
    && n <= |parts| && name == CutName(l, parts, hash, n) && |name| < l
    && (forall m :: n < m <= |parts| ==> |CutName(l, parts, hash, m)| >= l)
  }

  ghost predicate NeverFits(l: nat, parts: seq<string>, hash: string)
    requires |hash| == DIGEST_LENGTH
  {
    forall m :: 0 <= m <= |parts| ==> |CutName(l, parts, hash, m)| >= l
  }

  /** What Hashname promises: hash stands for the hexadecimal SHA-256 digest of the joined parts. */
  ghost predicate Named(l: nat, parts: seq<string>, hash: string, name: string)
    requires |hash| == DIGEST_LENGTH
  {
    (exists n :: 0 <= n <= |parts| && CutsFewest(l, parts, hash, name, n)) || (NeverFits(l, parts, hash) && name == hash[..Min(|hash|, l)])
  }

  lemma CutStep(l: nat, parts: seq<string>, hash: string, n: nat)
    requires n < |parts| && |hash| == DIGEST_LENGTH
    ensures Cut(l, parts, hash, n) == Cut(l, parts, hash, n + 1)[n := Truncate(l / |parts|, parts[n], hash[..SHORT_HASH])]
  {
  }

  /** Hashname, overwriting the array of parts as the original overwrites its argument slice. */
  method Shorten(l: nat, a: array<string>, hash: string) returns (name: string)
    requires |hash| == DIGEST_LENGTH
    modifies a
    ensures Named(l, old(a[..]), hash, name)
  {
    ghost var parts := a[..];
    name := Join(a[..], '_');
    assert a[..] == Cut(l, parts, hash, |parts|);
    if l > |name| {
      assert CutsFewest(l, parts, hash, name, |parts|);
      return;
    }
    var n := a.Length;
    while n > 0
      invariant 0 <= n <= a.Length && a[..] == Cut(l, parts, hash, n)
      invariant forall m :: n <= m <= |parts| ==> |CutName(l, parts, hash, m)| >= l
    {
      n := n - 1;
      CutStep(l, parts, hash, n);
      ghost var was := a[..];
      a[n] := Truncate(l / a.Length, a[n], hash[..SHORT_HASH]);
      assert a[..] == was[n := a[n]];
      name := Join(a[..], '_');
      assert name == CutName(l, parts, hash, n);
      if l > |name| {
        assert CutsFewest(l, parts, hash, name, n);
        return;
      }
    }
    name := hash[..Min(|hash|, l)];
  }

  /** A name never exceeds l; a join below l is kept as it is. */
  lemma NamedBounds(l: nat, parts: seq<string>, hash: string, name: string)
    requires |hash| == DIGEST_LENGTH && Named(l, parts, hash, name)
    ensures |name| <= l
    ensures |Join(parts, '_')| < l ==> name == Join(parts, '_')
  {
    assert Cut(l, parts, hash, |parts|) == parts;
    assert CutName(l, parts, hash, |parts|) == Join(parts, '_');
  }

  /** The promise fixes the name. */
  lemma NamedUnique(l: nat, parts: seq<string>, hash: string, a: string, b: string)
    requires |hash| == DIGEST_LENGTH && Named(l, parts, hash, a) && Named(l, parts, hash, b)
    ensures a == b
  {
    if exists n :: 0 <= n <= |parts| && CutsFewest(l, parts, hash, a, n) {
      var n :| 0 <= n <= |parts| && CutsFewest(l, parts, hash, a, n);
      assert !NeverFits(l, parts, hash);
      var m :| 0 <= m <= |parts| && CutsFewest(l, parts, hash, b, m);
      assert n == m;
    } else {
      assert NeverFits(l, parts, hash);
      assert !exists m :: 0 <= m <= |parts| && CutsFewest(l, parts, hash, b, m);
    }
  }

  /** One part is either kept whole or replaced by the digest: cutting it can never be enough. */
  lemma SinglePart(l: nat, part: string, hash: string, name: string)
    requires |hash| == DIGEST_LENGTH && Named(l, [part], hash, name)
    ensures name == if |part| < l then part else hash[..Min(DIGEST_LENGTH, l)]
  {
    NamedBounds(l, [part], hash, name);
    if |part| >= l {
      assert Cut(l, [part], hash, 0) == [Truncate(l, part, hash[..SHORT_HASH])];
      assert Cut(l, [part], hash, 1) == [part];
      assert !exists n :: 0 <= n <= 1 && CutsFewest(l, [part], hash, name, n);
    }
  }

  /** The name the promise fixes, as a function. */
  function NameOf(l: nat, parts: seq<string>, hash: string): (name: string)
    requires |hash| == DIGEST_LENGTH
  {
    CutFrom(l, parts, hash, |parts|)
  }

  function CutFrom(l: nat, parts: seq<string>, hash: string, n: nat): string
    requires n <= |parts| && |hash| == DIGEST_LENGTH
  {
    if |CutName(l, parts, hash, n)| < l then CutName(l, parts, hash, n)
    else if n == 0 then hash[..Min(|hash|, l)]
    else CutFrom(l, parts, hash, n - 1)
  }

  lemma {:induction false} CutFromNamed(l: nat, parts: seq<string>, hash: string, n: nat)
    requires n <= |parts| && |hash| == DIGEST_LENGTH
    requires forall m :: n < m <= |parts| ==> |CutName(l, parts, hash, m)| >= l
    ensures Named(l, parts, hash, CutFrom(l, parts, hash, n))
  {
    if |CutName(l, parts, hash, n)| < l {
      assert CutsFewest(l, parts, hash, CutName(l, parts, hash, n), n);
    } else if n > 0 {
      CutFromNamed(l, parts, hash, n - 1);
    }
  }

  /** Whatever meets the promise, and so what Shorten returns, is this name. */
  lemma NamedIffNameOf(l: nat, parts: seq<string>, hash: string, name: string)
    requires |hash| == DIGEST_LENGTH
    ensures Named(l, parts, hash, name) <==> name == NameOf(l, parts, hash)
  {
    CutFromNamed(l, parts, hash, |parts|);
    if Named(l, parts, hash, name) {
      NamedUnique(l, parts, hash, name, NameOf(l, parts, hash));
    }
  }
}
