/**
 * Character strings as the source's Python code sees them: splitting on a
 * separator (`str.split`), joining (`str.join`), the code-point order used
 * by `sorted` on `str`, and ASCII lower-casing.
 */
module Strings {

  /** `s.split(sep)`: the pieces between separators; empty pieces are kept. */
  function Split(s: string, sep: char): (r: seq<string>)
    ensures |r| >= 1
    ensures forall i :: 0 <= i < |r| ==> sep !in r[i]
  {
    if |s| == 0 then [""]
    else
      var rest := Split(s[1..], sep);
      if s[0] == sep then [""] + rest
      else [[s[0]] + rest[0]] + rest[1..]
  }

  /** `sep.join(parts)` */
  function Join(parts: seq<string>, sep: char): string
  {
    if |parts| == 0 then ""
    else if |parts| == 1 then parts[0]
    else parts[0] + [sep] + Join(parts[1..], sep)
  }

  /** Joining the pieces of a split gives the string back. */
  lemma {:induction false} JoinSplit(s: string, sep: char)
    ensures Join(Split(s, sep), sep) == s
  {
    if |s| > 0 {
      JoinSplit(s[1..], sep);
      var rest := Split(s[1..], sep);
      if s[0] == sep {
        assert Split(s, sep) == [""] + rest;
        assert ([""] + rest)[1..] == rest;
      } else {
        var r := Split(s, sep);
        assert r == [[s[0]] + rest[0]] + rest[1..];
        if |rest| == 1 {
          assert Join(rest, sep) == rest[0];
        } else {
          assert r[1..] == rest[1..];
          assert Join(rest, sep) == rest[0] + [sep] + Join(rest[1..], sep);
        }
      }
    }
  }

  /** A piece without the separator splits to itself. */
  lemma {:induction false} SplitNoSep(a: string, sep: char)
    requires sep !in a
    ensures Split(a, sep) == [a]
  {
    if |a| > 0 {
      SplitNoSep(a[1..], sep);
      assert [a[0]] + a[1..] == a;
    }
  }

  /** Splitting `a + sep + b`, where `a` holds no separator. */
  lemma {:induction false} SplitCons(a: string, sep: char, b: string)
    requires sep !in a
    ensures Split(a + [sep] + b, sep) == [a] + Split(b, sep)
  {
    if |a| == 0 {
      assert a + [sep] + b == [sep] + b;
      assert ([sep] + b)[1..] == b;
    } else {
      var s := a + [sep] + b;
      assert s[0] == a[0];
      assert s[1..] == a[1..] + [sep] + b;
      SplitCons(a[1..], sep, b);
      assert [a[0]] + a[1..] == a;
    }
  }

  /** Splitting a join of separator-free pieces gives the pieces back. */
  lemma {:induction false} SplitJoin(parts: seq<string>, sep: char)
    requires |parts| >= 1
    requires forall i :: 0 <= i < |parts| ==> sep !in parts[i]
    ensures Split(Join(parts, sep), sep) == parts
  {
    if |parts| == 1 {
      SplitNoSep(parts[0], sep);
    } else {
      SplitJoin(parts[1..], sep);
      SplitCons(parts[0], sep, Join(parts[1..], sep));
      assert [parts[0]] + parts[1..] == parts;
    }
  }

  /** A character other than the separator extends the last piece. */
  lemma {:induction false} SplitSnoc(s: string, sep: char, c: char)
    requires c != sep
    ensures var r := Split(s, sep); Split(s + [c], sep) == r[..|r| - 1] + [r[|r| - 1] + [c]]
  {
    if |s| == 0 {
      assert s + [c] == [c];
      assert [c][1..] == [];
      var tail := Split([c][1..], sep);
      assert tail[0] == "" && tail[1..] == [];
      assert [c] + tail[0] == [c];
      assert Split([c], sep) == [[c] + tail[0]] + tail[1..];
      assert Split(s, sep) == [""];
      assert [""][..0] + ["" + [c]] == [[c]];
    } else {
      var rest := Split(s[1..], sep);
      assert (s + [c])[1..] == s[1..] + [c];
      SplitSnoc(s[1..], sep, c);
      var rest' := Split(s[1..] + [c], sep);
      assert rest' == rest[..|rest| - 1] + [rest[|rest| - 1] + [c]];
      var r := Split(s, sep);
      if s[0] == sep {
        assert r == [""] + rest;
        assert r[..|r| - 1] == [""] + rest[..|rest| - 1];
      } else if |rest| == 1 {
        assert r == [[s[0]] + rest[0]];
        assert rest' == [rest[0] + [c]];
        assert (s + [c])[0] == s[0];
        assert Split(s + [c], sep) == [[s[0]] + rest'[0]] + rest'[1..];
        assert [s[0]] + (rest[0] + [c]) == [s[0]] + rest[0] + [c];
      } else {
        assert r == [[s[0]] + rest[0]] + rest[1..];
        assert r[..|r| - 1] == [[s[0]] + rest[0]] + rest[1..|rest| - 1];
        assert (s + [c])[0] == s[0];
        assert Split(s + [c], sep) == [[s[0]] + rest'[0]] + rest'[1..];
        assert rest'[0] == rest[0];
        assert rest'[1..] == rest[1..|rest| - 1] + [rest[|rest| - 1] + [c]];
      }
    }
  }

  /** Python's `<` on `str`: lexicographic on code points, a proper prefix first. */
  predicate Below(a: string, b: string)
  {
    if |b| == 0 then false
    else if |a| == 0 then true
    else if a[0] != b[0] then a[0] < b[0]
    else Below(a[1..], b[1..])
  }

  predicate BelowEq(a: string, b: string) { a == b || Below(a, b) }

  lemma {:induction false} BelowIrreflexive(a: string)
    ensures !Below(a, a)
  {
    if |a| > 0 { BelowIrreflexive(a[1..]); }
  }

  lemma {:induction false} BelowTransitive(a: string, b: string, c: string)
    requires Below(a, b) && Below(b, c)
    ensures Below(a, c)
  {
    if |a| > 0 && a[0] == b[0] && b[0] == c[0] {
      BelowTransitive(a[1..], b[1..], c[1..]);
    }
  }

  /** Exactly one of `a < b`, `a == b`, `b < a` holds. */
  lemma {:induction false} BelowTotal(a: string, b: string)
    ensures Below(a, b) || a == b || Below(b, a)
    ensures !(Below(a, b) && Below(b, a))
  {
    if |a| > 0 && |b| > 0 && a[0] == b[0] {
      BelowTotal(a[1..], b[1..]);
      if a[1..] == b[1..] {
        assert a == [a[0]] + a[1..] && b == [b[0]] + b[1..];
      }
    }
  }

  /** `str.lower()` restricted to ASCII letters. */
  function Lower(s: string): (r: string)
    ensures |r| == |s|
    ensures forall i :: 0 <= i < |s| ==> r[i] == LowerChar(s[i])
  {
    if |s| == 0 then "" else [LowerChar(s[0])] + Lower(s[1..])
  }

  function LowerChar(c: char): char
  {
    if 'A' <= c <= 'Z' then (c as int + 32) as char else c
  }
}
