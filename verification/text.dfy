/**
 * The Python string built-ins the batch tool relies on, each stated with the
 * meaning the tool depends on: prefix and suffix tests, substring search,
 * one-character `replace`, `split` on one character, `join`, and decimal
 * printing and reading of natural numbers.
 */
module Text {

  /** `s.startswith(p)` */
  predicate StartsWith(s: string, p: string)
  {
    |p| <= |s| && s[..|p|] == p
  }

  /** `s.endswith(p)` */
  predicate EndsWith(s: string, p: string)
  {
    |p| <= |s| && s[|s| - |p|..] == p
  }

  /** `p in s`, scanning `s` from the left. */
  predicate Contains(s: string, p: string)
    decreases |s|
  {
    StartsWith(s, p) || (|s| > 0 && Contains(s[1..], p))
  }

  /** `p` occurs in `s` at offset `i`. */
  predicate OccursAt(s: string, p: string, i: int)
  {
    0 <= i && i + |p| <= |s| && s[i..i + |p|] == p
  }

  /** The scanning definition of `Contains` agrees with the positional one. */
  lemma {:induction false} ContainsIff(s: string, p: string)
    ensures Contains(s, p) <==> exists i :: OccursAt(s, p, i)
    decreases |s|
  {
    if StartsWith(s, p) {
      assert OccursAt(s, p, 0);
    }
    if |s| > 0 {
      ContainsIff(s[1..], p);
      if Contains(s[1..], p) {
        var j :| OccursAt(s[1..], p, j);
        assert s[j + 1..j + 1 + |p|] == s[1..][j..j + |p|];
        assert OccursAt(s, p, j + 1);
      }
      if i :| OccursAt(s, p, i) {
        if i == 0 {
          assert StartsWith(s, p);
        } else {
          assert s[1..][i - 1..i - 1 + |p|] == s[i..i + |p|];
          assert OccursAt(s[1..], p, i - 1);
        }
      }
    } else {
      if i :| OccursAt(s, p, i) {
        assert StartsWith(s, p);
      }
    }
  }

  /** Number of occurrences of `c` in `s` (`s.count(c)`). */
  function Count(s: string, c: char): (n: nat)
    ensures n <= |s|
    ensures n == 0 <==> c !in s
  {
    if |s| == 0 then 0 else (if s[0] == c then 1 else 0) + Count(s[1..], c)
  }

  lemma {:induction false} CountConcat(a: string, b: string, c: char)
    ensures Count(a + b, c) == Count(a, c) + Count(b, c)
  {
    if |a| > 0 {
      assert (a + b)[1..] == a[1..] + b;
      CountConcat(a[1..], b, c);
    } else {
      assert a + b == b;
    }
  }

  /** `s` with the characters of `cs` deleted and the others kept in order. */
  function Drop(s: string, cs: set<char>): (r: string)
    ensures |r| <= |s|
    ensures forall x :: x in r <==> x in s && x !in cs
  {
    if |s| == 0 then ""
    else if s[0] in cs then Drop(s[1..], cs)
    else [s[0]] + Drop(s[1..], cs)
  }

  lemma {:induction false} DropConcat(a: string, b: string, cs: set<char>)
    ensures Drop(a + b, cs) == Drop(a, cs) + Drop(b, cs)
  {
    if |a| > 0 {
      var ab := a + b;
      assert ab[0] == a[0] && ab[1..] == a[1..] + b;
      DropFirst(ab, cs);
      DropFirst(a, cs);
      DropConcat(a[1..], b, cs);
      var x, y, z := Drop([a[0]], cs), Drop(a[1..], cs), Drop(b, cs);
      assert x + (y + z) == (x + y) + z;
    } else {
      assert a + b == b;
    }
  }

  /** `s.replace(c, t)` for a one-character pattern: every `c` becomes `t`. */
  function Replace(s: string, c: char, t: string): (r: string)
    ensures c !in t ==> c !in r
    ensures forall x :: x in r ==> x in s || x in t
  {
    if |s| == 0 then ""
    else (if s[0] == c then t else [s[0]]) + Replace(s[1..], c, t)
  }

  /**
   * How a replacement by at most one character changes the count of every
   * other character `x`: each `c` of `s` adds one `x` exactly when `t` is `x`.
   */
  lemma {:induction false} ReplaceCount(s: string, c: char, t: string, x: char)
    requires x != c
    requires |t| <= 1
    ensures Count(Replace(s, c, t), x) == Count(s, x) + (if t == [x] then Count(s, c) else 0)
  {
    if |s| > 0 {
      var head := if s[0] == c then t else [s[0]];
      ReplaceCount(s[1..], c, t, x);
      CountConcat(head, Replace(s[1..], c, t), x);
      assert Count(head, x) == (if head == [x] then 1 else 0) by {
        if |head| == 1 {
          assert head[1..] == [];
        }
      }
    }
  }

  /** One character survives exactly when it is not dropped. */
  lemma DropOne(x: char, cs: set<char>)
    ensures Drop([x], cs) == if x in cs then "" else [x]
  {
    assert [x][1..] == "";
  }

  /** `Drop` of a non-empty text is that of its first character followed by that of the rest. */
  lemma DropFirst(s: string, cs: set<char>)
    requires |s| > 0
    ensures Drop(s, cs) == Drop([s[0]], cs) + Drop(s[1..], cs)
  {
    DropOne(s[0], cs);
  }

  /** Nothing survives when every character is dropped. */
  lemma {:induction false} DropEverything(s: string, cs: set<char>)
    requires forall x :: x in s ==> x in cs
    ensures Drop(s, cs) == ""
  {
    if |s| > 0 {
      assert s[0] in s;
      DropEverything(s[1..], cs);
    }
  }

  /** Deleting `c` entirely removes all of its occurrences from the length. */
  lemma {:induction false} ReplaceByNothingLength(s: string, c: char)
    ensures |Replace(s, c, "")| == |s| - Count(s, c)
  {
    if |s| > 0 {
      ReplaceByNothingLength(s[1..], c);
    }
  }

  /**
   * Characters that neither are `c` nor occur in `t` keep their order:
   * forgetting every character of `cs` (which holds `c` and all of `t`), the
   * text is unchanged by the replacement.
   */
  lemma {:induction false} ReplaceKeepsOthers(s: string, c: char, t: string, cs: set<char>)
    requires c in cs
    requires forall x :: x in t ==> x in cs
    ensures Drop(Replace(s, c, t), cs) == Drop(s, cs)
  {
    if |s| > 0 {
      ReplaceKeepsOthers(s[1..], c, t, cs);
      var head := if s[0] == c then t else [s[0]];
      DropConcat(head, Replace(s[1..], c, t), cs);
      if s[0] == c {
        DropEverything(t, cs);
      } else {
        DropOne(s[0], cs);
      }
      DropFirst(s, cs);
    }
  }

  /** `s.split(sep)`: the text between separators, always at least one field. */
  function Split(s: string, sep: char): (fields: seq<string>)
    ensures |fields| == Count(s, sep) + 1
    ensures forall i :: 0 <= i < |fields| ==> sep !in fields[i]
  {
    if |s| == 0 then [""]
    else
      var rest := Split(s[1..], sep);
      if s[0] == sep then [""] + rest
      else [[s[0]] + rest[0]] + rest[1..]
  }

  /** `sep.join(parts)` */
  function Join(parts: seq<string>, sep: string): string
  {
    if |parts| == 0 then ""
    else if |parts| == 1 then parts[0]
    else parts[0] + sep + Join(parts[1..], sep)
  }

  /** Splitting and joining again on the same separator gives the text back. */
  lemma {:induction false} JoinSplit(s: string, sep: char)
    ensures Join(Split(s, sep), [sep]) == s
  {
    if |s| > 0 {
      JoinSplit(s[1..], sep);
      var rest := Split(s[1..], sep);
      if s[0] != sep {
        if |rest| > 1 {
          assert ([[s[0]] + rest[0]] + rest[1..])[1..] == rest[1..];
          assert Join(rest, [sep]) == rest[0] + [sep] + Join(rest[1..], [sep]);
        }
      } else {
        assert ([""] + rest)[1..] == rest;
      }
    }
  }

  /** Fields free of the separator are recovered exactly by splitting their join. */
  lemma {:induction false} SplitJoin(fields: seq<string>, sep: char)
    requires |fields| >= 1
    requires forall i :: 0 <= i < |fields| ==> sep !in fields[i]
    ensures Split(Join(fields, [sep]), sep) == fields
    decreases |fields|, |fields[0]|
  {
    if |fields[0]| > 0 {
      var f := fields[0];
      var shorter := [f[1..]] + fields[1..];
      assert Join(shorter, [sep]) == Join(fields, [sep])[1..] by {
        if |fields| > 1 {
          assert shorter[1..] == fields[1..];
        }
      }
      SplitJoin(shorter, sep);
      assert [f[0]] + f[1..] == f;
      assert fields == [[f[0]] + shorter[0]] + shorter[1..];
    } else if |fields| > 1 {
      assert Join(fields, [sep]) == [sep] + Join(fields[1..], [sep]);
      SplitJoin(fields[1..], sep);
      assert Join(fields, [sep])[1..] == Join(fields[1..], [sep]);
      assert fields == [""] + fields[1..];
    }
  }

  /** The digit character for `d`. */
  function DigitChar(d: nat): (c: char)
    requires d < 10
    ensures '0' <= c <= '9'
  {
    ('0' as int + d) as char
  }

  predicate IsDigits(s: string)
  {
    |s| > 0 && forall i :: 0 <= i < |s| ==> '0' <= s[i] <= '9'
  }

  /** `int(s)` for a non-empty run of ASCII digits. */
  function DecimalValue(s: string): nat
    requires forall i :: 0 <= i < |s| ==> '0' <= s[i] <= '9'
  {
    if |s| == 0 then 0
    else DecimalValue(s[..|s| - 1]) * 10 + (s[|s| - 1] as int - '0' as int)
  }

  /** `str(n)`: the decimal digits of `n`, without leading zeros. */
  function NatToString(n: nat): (s: string)
    ensures IsDigits(s)
    ensures n < 10 <==> |s| == 1
    ensures n >= 10 ==> s[0] != '0'
  {
    if n < 10 then [DigitChar(n)]
    else NatToString(n / 10) + [DigitChar(n % 10)]
  }

  /** Reading back the printed decimal gives the number. */
  lemma {:induction false} DecimalRoundTrip(n: nat)
    ensures DecimalValue(NatToString(n)) == n
  {
    if n >= 10 {
      DecimalRoundTrip(n / 10);
      var s := NatToString(n);
      assert s[..|s| - 1] == NatToString(n / 10);
    }
  }
}
