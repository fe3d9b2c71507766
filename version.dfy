/**
 * `Version` from mc_pack_manager/utils.py: a tuple of integers written as
 * dot-separated numbers, ordered like Python tuples, with an increment of
 * the last component.
 */
module Versions {
  import opened Wrappers
  import opened Strings

  datatype Version = Version(parts: seq<int>)

  // ---------------------------------------------------------------------
  // `int()` on one component, and `str()` of an integer
  // ---------------------------------------------------------------------

  predicate IsDigit(c: char) { '0' <= c <= '9' }

  predicate AllDigits(s: string) { forall i :: 0 <= i < |s| ==> IsDigit(s[i]) }

  predicate IsSpace(c: char) { c == ' ' || c == '\t' || c == '\n' || c == '\r' }

  /** Decimal value of a digit string. */
  function DigitsValue(s: string): nat
    requires AllDigits(s)
  {
    if |s| == 0 then 0
    else DigitsValue(s[..|s| - 1]) * 10 + (s[|s| - 1] as int - '0' as int)
  }

  function TrimStart(s: string): (r: string)
    ensures |r| <= |s| && (|r| > 0 ==> !IsSpace(r[0]))
  {
    if |s| > 0 && IsSpace(s[0]) then TrimStart(s[1..]) else s
  }

  function TrimEnd(s: string): (r: string)
    ensures |r| <= |s| && (|r| > 0 ==> !IsSpace(r[|r| - 1]))
  {
    if |s| > 0 && IsSpace(s[|s| - 1]) then TrimEnd(s[..|s| - 1]) else s
  }

  /** Python's `int(s)`: surrounding whitespace, an optional sign, decimal digits. */
  function ParseInt(s: string): Option<int>
  {
    var t := TrimEnd(TrimStart(s));
    if |t| >= 2 && (t[0] == '-' || t[0] == '+') && AllDigits(t[1..]) then
      var n: int := DigitsValue(t[1..]);
      Some(if t[0] == '-' then -n else n)
    else if |t| >= 1 && AllDigits(t) then Some(DigitsValue(t))
    else None
  }

  function DigitChar(d: nat): char
    requires d < 10
  {
    ('0' as int + d) as char
  }

  /** `str(n)` for a natural number: no sign, no leading zero. */
  function NatString(n: nat): (r: string)
    ensures |r| >= 1 && AllDigits(r)
  {
    if n < 10 then [DigitChar(n)] else NatString(n / 10) + [DigitChar(n % 10)]
  }

  function IntString(i: int): string
  {
    if i < 0 then "-" + NatString(-i) else NatString(i)
  }

  /** A canonical decimal numeral: digits only, no leading zero unless it is "0". */
  predicate Canonical(s: string)
  {
    |s| >= 1 && AllDigits(s) && (s[0] == '0' ==> |s| == 1)
  }

  lemma {:induction false} DigitsOfNatString(n: nat)
    ensures DigitsValue(NatString(n)) == n
    ensures Canonical(NatString(n))
  {
    if n >= 10 {
      DigitsOfNatString(n / 10);
      var s := NatString(n);
      assert s[..|s| - 1] == NatString(n / 10);
    }
  }

  lemma {:induction false} NatStringOfDigits(s: string)
    requires Canonical(s)
    ensures NatString(DigitsValue(s)) == s
  {
    if |s| > 1 {
      var p := s[..|s| - 1];
      assert p[0] == s[0];
      assert Canonical(p);
      NatStringOfDigits(p);
      assert DigitsValue(p) >= 1 by { LeadingDigitPositive(p); }
      assert s == p + [s[|s| - 1]];
    }
  }

  lemma {:induction false} LeadingDigitPositive(s: string)
    requires |s| >= 1 && AllDigits(s) && s[0] != '0'
    ensures DigitsValue(s) >= 1
  {
    if |s| > 1 {
      var p := s[..|s| - 1];
      assert p[0] == s[0];
      LeadingDigitPositive(p);
    }
  }

  /** `int(str(i)) == i` */
  lemma ParseIntString(i: int)
    ensures ParseInt(IntString(i)) == Some(i)
  {
    var s := IntString(i);
    DigitsOfNatString(if i < 0 then -i else i);
    assert TrimStart(s) == s;
    assert TrimEnd(s) == s;
    if i < 0 {
      assert s[1..] == NatString(-i);
    }
  }

  // ---------------------------------------------------------------------
  // Construction from a string, and `__str__`
  // ---------------------------------------------------------------------

  /** Every component parsed, or None at the first that `int()` rejects. */
  function ParseParts(ps: seq<string>): (r: Option<seq<int>>)
    ensures r.Some? ==> |r.value| == |ps|
  {
    if |ps| == 0 then Some([])
    else match (ParseInt(ps[0]), ParseParts(ps[1..]))
      case (Some(x), Some(xs)) => Some([x] + xs)
      case _ => None
  }

  /** `Version("a.b.c")`: split on "." and convert every piece with `int()`;
      None stands for the ValueError `int()` raises. */
  function Parse(s: string): Option<Version>
  {
    match ParseParts(Split(s, '.'))
    case Some(xs) => Some(Version(xs))
    case None => None
  }

  function PartStrings(xs: seq<int>): (r: seq<string>)
    ensures |r| == |xs|
    ensures forall i :: 0 <= i < |xs| ==> r[i] == IntString(xs[i])
  {
    if |xs| == 0 then [] else [IntString(xs[0])] + PartStrings(xs[1..])
  }

  /** `str(version)` */
  function ToString(v: Version): string
  {
    Join(PartStrings(v.parts), '.')
  }

  lemma {:induction false} ParsePartStrings(xs: seq<int>)
    ensures ParseParts(PartStrings(xs)) == Some(xs)
  {
    if |xs| > 0 {
      ParseIntString(xs[0]);
      ParsePartStrings(xs[1..]);
      assert PartStrings(xs)[1..] == PartStrings(xs[1..]);
      assert [xs[0]] + xs[1..] == xs;
    }
  }

  /** Reading back the string form of a non-empty version gives the same version. */
  lemma ParseToString(v: Version)
    requires |v.parts| >= 1
    ensures Parse(ToString(v)) == Some(v)
  {
    var ps := PartStrings(v.parts);
    forall i | 0 <= i < |ps| ensures '.' !in ps[i] {
      var x := v.parts[i];
      var n: nat := if x < 0 then -x else x;
      var d := NatString(n);
      assert AllDigits(d);
      assert ps[i] == if x < 0 then "-" + d else d;
    }
    SplitJoin(ps, '.');
    ParsePartStrings(v.parts);
  }

  /** A dotted string of canonical numerals survives `str(Version(s))`. */
  lemma ToStringParse(s: string)
    requires forall i :: 0 <= i < |Split(s, '.')| ==> Canonical(Split(s, '.')[i])
    ensures Parse(s).Some? && ToString(Parse(s).value) == s
  {
    var ps := Split(s, '.');
    CanonicalParts(ps);
    JoinSplit(s, '.');
  }

  lemma {:induction false} CanonicalParts(ps: seq<string>)
    requires forall i :: 0 <= i < |ps| ==> Canonical(ps[i])
    ensures ParseParts(ps).Some?
    ensures PartStrings(ParseParts(ps).value) == ps
  {
    if |ps| > 0 {
      CanonicalParts(ps[1..]);
      ParseCanonical(ps[0]);
      var xs := ParseParts(ps[1..]).value;
      var x := DigitsValue(ps[0]);
      assert ParseParts(ps) == Some([x] + xs);
      assert PartStrings([x] + xs) == [IntString(x)] + PartStrings(xs);
      assert [ps[0]] + ps[1..] == ps;
    }
  }

  lemma ParseCanonical(t: string)
    requires Canonical(t)
    ensures ParseInt(t) == Some(DigitsValue(t))
    ensures IntString(DigitsValue(t)) == t
  {
    assert TrimStart(t) == t && TrimEnd(t) == t;
    NatStringOfDigits(t);
  }

  // ---------------------------------------------------------------------
  // Comparisons (`__lt__`, `__le__`, `__eq__`, `__ge__`, `__gt__`)
  // ---------------------------------------------------------------------

  /** Python tuple `<`: the first differing component decides; a proper prefix is smaller. */
  predicate TupleLess(a: seq<int>, b: seq<int>)
  {
    if |b| == 0 then false
    else if |a| == 0 then true
    else if a[0] != b[0] then a[0] < b[0]
    else TupleLess(a[1..], b[1..])
  }

  predicate Less(v: Version, w: Version) { TupleLess(v.parts, w.parts) }
  predicate LessEq(v: Version, w: Version) { TupleLess(v.parts, w.parts) || v.parts == w.parts }
  predicate Greater(v: Version, w: Version) { TupleLess(w.parts, v.parts) }
  predicate GreaterEq(v: Version, w: Version) { TupleLess(w.parts, v.parts) || v.parts == w.parts }

  lemma {:induction false} TupleLessIrreflexive(a: seq<int>)
    ensures !TupleLess(a, a)
  {
    if |a| > 0 { TupleLessIrreflexive(a[1..]); }
  }

  lemma {:induction false} TupleLessTransitive(a: seq<int>, b: seq<int>, c: seq<int>)
    requires TupleLess(a, b) && TupleLess(b, c)
    ensures TupleLess(a, c)
  {
    if |a| > 0 && a[0] == b[0] && b[0] == c[0] {
      TupleLessTransitive(a[1..], b[1..], c[1..]);
    }
  }

  lemma {:induction false} TupleLessTrichotomy(a: seq<int>, b: seq<int>)
    ensures TupleLess(a, b) || a == b || TupleLess(b, a)
    ensures !(TupleLess(a, b) && TupleLess(b, a))
  {
    if |a| > 0 && |b| > 0 && a[0] == b[0] {
      TupleLessTrichotomy(a[1..], b[1..]);
      if a[1..] == b[1..] {
        assert a == [a[0]] + a[1..] && b == [b[0]] + b[1..];
      }
    }
  }

  /** The five comparisons form one strict total order and its companions. */
  lemma VersionTotalOrder(u: Version, v: Version, w: Version)
    ensures !Less(v, v)
    ensures Less(u, v) && Less(v, w) ==> Less(u, w)
    ensures (Less(v, w) && !(v == w) && !Greater(v, w))
                      || (!Less(v, w) && v == w && !Greater(v, w))
                      || (!Less(v, w) && !(v == w) && Greater(v, w))
    ensures LessEq(v, w) <==> !Greater(v, w)
    ensures GreaterEq(v, w) <==> !Less(v, w)
  {
    TupleLessIrreflexive(v.parts);
    if Less(u, v) && Less(v, w) { TupleLessTransitive(u.parts, v.parts, w.parts); }
    TupleLessTrichotomy(v.parts, w.parts);
  }

  // ---------------------------------------------------------------------
  // `incr()`
  // ---------------------------------------------------------------------

  /** `incr()`: add one to the last component; None stands for the
      IndexError an empty version raises. */
  function Incr(v: Version): (r: Option<Version>)
    ensures r.Some? <==> |v.parts| >= 1
    ensures r.Some? ==> |r.value.parts| == |v.parts|
    ensures r.Some? ==> r.value.parts[..|v.parts| - 1] == v.parts[..|v.parts| - 1]
    ensures r.Some? ==> r.value.parts[|v.parts| - 1] == v.parts[|v.parts| - 1] + 1
  {
    var n := |v.parts|;
    if n == 0 then None
    else Some(Version(v.parts[..n - 1] + [v.parts[n - 1] + 1]))
  }

  lemma {:induction false} BumpLastIsGreater(a: seq<int>, b: seq<int>)
    requires |a| == |b| >= 1
    requires a[..|a| - 1] == b[..|b| - 1] && a[|a| - 1] < b[|b| - 1]
    ensures TupleLess(a, b)
  {
    if |a| > 1 {
      assert a[0] == a[..|a| - 1][0] == b[..|b| - 1][0] == b[0];
      assert a[1..][..|a| - 2] == a[1..|a| - 1];
      assert b[1..][..|b| - 2] == b[1..|b| - 1];
      BumpLastIsGreater(a[1..], b[1..]);
    }
  }

  /** The incremented version is strictly greater than the original. */
  lemma IncrIsGreater(v: Version)
    requires |v.parts| >= 1
    ensures Incr(v).Some? && Less(v, Incr(v).value)
  {
    BumpLastIsGreater(v.parts, Incr(v).value.parts);
  }
}
