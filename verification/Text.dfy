// String operations of the Go standard library that the modelled code relies on.
module Text {

  datatype Option<+T> = None | Some(value: T)

  newtype byte = x: int | 0 <= x < 256

  ghost predicate NoDup(s: seq<string>) { forall i, j :: 0 <= i < j < |s| ==> s[i] != s[j] }

  ghost predicate SlashFree(s: string) { '/' !in s }

  /** strings.Split with a one-character separator: never empty. */
  function Split(s: string, sep: char): (parts: seq<string>)
    ensures |parts| >= 1
  {
    if s == "" then [""]
    else if s[0] == sep then [""] + Split(s[1..], sep)
    else
      var rest := Split(s[1..], sep);
      [[s[0]] + rest[0]] + rest[1..]
  }

  /** strings.Join with a one-character separator. */
  function Join(parts: seq<string>, sep: char): string {
    if parts == [] then ""
    else if |parts| == 1 then parts[0]
    else parts[0] + [sep] + Join(parts[1..], sep)
  }

  ghost predicate AllFree(parts: seq<string>, sep: char) {
    forall i :: 0 <= i < |parts| ==> sep !in parts[i]
  }

  lemma {:induction false} SplitFree(s: string, sep: char)
    requires sep !in s
    ensures Split(s, sep) == [s]
  {
    if s != "" {
      SplitFree(s[1..], sep);
      assert [s[0]] + s[1..] == s;
    }
  }

  lemma {:induction false} SplitCons(a: string, sep: char, rest: string)
    requires sep !in a
    ensures Split(a + [sep] + rest, sep) == [a] + Split(rest, sep)
  {
    var s := a + [sep] + rest;
    if a == "" {
      assert s[1..] == rest;
    } else {
      assert s[1..] == a[1..] + [sep] + rest;
      SplitCons(a[1..], sep, rest);
      assert [a[0]] + a[1..] == a;
    }
  }

  /** Splitting undoes joining when no part contains the separator. */
  lemma {:induction false} SplitJoin(parts: seq<string>, sep: char)
    requires |parts| >= 1 && AllFree(parts, sep)
    ensures Split(Join(parts, sep), sep) == parts
  {
    if |parts| == 1 {
      SplitFree(parts[0], sep);
    } else {
      SplitJoin(parts[1..], sep);
      SplitCons(parts[0], sep, Join(parts[1..], sep));
    }
  }

  lemma {:induction false} SplitParts(s: string, sep: char)
    ensures AllFree(Split(s, sep), sep)
  {
    if s != "" {
      SplitParts(s[1..], sep);
      var (rest, parts) := (Split(s[1..], sep), Split(s, sep));
      assert sep !in rest[0];
      forall i | 0 <= i < |parts| ensures sep !in parts[i] {
        assert i > 0 ==> parts[i] == if s[0] == sep then rest[i - 1] else rest[i];
      }
    }
  }

  lemma {:induction false} SplitJoins(s: string, sep: char)
    ensures Join(Split(s, sep), sep) == s
  {
    if s != "" {
      SplitJoins(s[1..], sep);
      var (rest, parts) := (Split(s[1..], sep), Split(s, sep));
      assert [s[0]] + s[1..] == s;
      if s[0] == sep {
        assert parts[1..] == rest;
      } else {
        assert parts[1..] == rest[1..];
      }
    }
  }

  /** Splitting loses nothing: joining the parts gives the text back, and no part holds the separator. */
  lemma JoinSplit(s: string, sep: char)
    ensures Join(Split(s, sep), sep) == s
    ensures AllFree(Split(s, sep), sep)
  {
    SplitParts(s, sep);
    SplitJoins(s, sep);
  }

  /** The last part of a split, when a separator-free tail is appended to any text. */
  lemma {:induction false} SplitSnoc(a: string, sep: char, tail: string)
    requires sep !in tail
    ensures Split(a + [sep] + tail, sep) == Split(a, sep) + [tail]
  {
    var s := a + [sep] + tail;
    if a == "" {
      SplitFree(tail, sep);
      assert s[1..] == tail;
    } else {
      assert s[1..] == a[1..] + [sep] + tail;
      SplitSnoc(a[1..], sep, tail);
    }
  }

  /** strconv.Itoa on a non-negative number. */
  function Itoa(n: nat): (s: string)
    ensures s != ""
    ensures forall c :: c in s ==> '0' <= c <= '9'
  {
    if n < 10 then ['0' + n as char]
    else Itoa(n / 10) + ['0' + (n % 10) as char]
  }

  predicate IsDigits(s: string) {
    s != "" && forall i :: 0 <= i < |s| ==> '0' <= s[i] <= '9'
  }

  /** The value of a decimal numeral. */
  function Decimal(s: string): nat
    requires IsDigits(s)
  {
    var d := s[|s| - 1] as nat - '0' as nat;
    if |s| == 1 then d else 10 * Decimal(s[..|s| - 1]) + d
  }

  lemma {:induction false} DecimalItoa(n: nat)
    ensures IsDigits(Itoa(n)) && Decimal(Itoa(n)) == n
  {
    if n >= 10 {
      DecimalItoa(n / 10);
      var s := Itoa(n);
      assert s[..|s| - 1] == Itoa(n / 10);
    }
  }

  lemma ItoaInjective(a: nat, b: nat)
    requires Itoa(a) == Itoa(b)
    ensures a == b
  {
    DecimalItoa(a);
    DecimalItoa(b);
  }

  /** strings.Contains. */
  predicate Contains(s: string, sub: string) {
    exists i | 0 <= i <= |s| :: OccursAt(s, sub, i)
  }

  predicate OccursAt(s: string, sub: string, i: nat)
    requires i <= |s|
  {
    sub <= s[i..]
  }

  /** A text contains another exactly when it is something before it, it, and something after it. */
  lemma ContainsIff(s: string, sub: string)
    ensures Contains(s, sub) <==> exists a, b :: s == a + sub + b
  {
    if Contains(s, sub) {
      var i :| 0 <= i <= |s| && OccursAt(s, sub, i);
      assert s == s[..i] + sub + s[i + |sub|..];
    }
    if a, b :| s == a + sub + b {
      assert s[|a|..] == sub + b;
      assert OccursAt(s, sub, |a|);
    }
  }
}
