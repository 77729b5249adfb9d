/**
 Python `str` operations the raw Python output format relies on: the ordering
 that `sorted` applies to attribute and field names, `str.join`, `str.split`
 and repetition (`'+-' * 40`).
 */
module PyText {

  /** Python's `a < b` on `str`: lexicographic by code point, a proper prefix
      being the smaller. */
  predicate Less(a: string, b: string)
    decreases |a|
  {
    if |a| == 0 then |b| > 0
    else if |b| == 0 then false
    else a[0] < b[0] || (a[0] == b[0] && Less(a[1..], b[1..]))
  }

  lemma {:induction false} LessIrreflexive(a: string)
    ensures !Less(a, a)
    decreases |a|
  {
    if |a| > 0 {
      LessIrreflexive(a[1..]);
    }
  }

  lemma {:induction false} LessTransitive(a: string, b: string, c: string)
    requires Less(a, b) && Less(b, c)
    ensures Less(a, c)
    decreases |a|
  {
    if |a| > 0 && a[0] == b[0] && b[0] == c[0] {
      LessTransitive(a[1..], b[1..], c[1..]);
    }
  }

  lemma {:induction false} LessTotal(a: string, b: string)
    requires a != b
    ensures Less(a, b) || Less(b, a)
    decreases |a|
  {
    if |a| > 0 && |b| > 0 && a[0] == b[0] {
      assert a == [a[0]] + a[1..] && b == [b[0]] + b[1..];
      LessTotal(a[1..], b[1..]);
    }
  }

  lemma LessAsymmetric(a: string, b: string)
    requires Less(a, b)
    ensures !Less(b, a)
  {
    if Less(b, a) {
      LessTransitive(a, b, a);
      LessIrreflexive(a);
    }
  }

  /** `m` is the smallest name of `s`. */
  predicate IsLeast(m: string, s: set<string>)
  {
    m in s && forall x :: x in s ==> x == m || Less(m, x)
  }

  lemma {:induction false} LeastExists(s: set<string>)
    requires s != {}
    ensures exists m :: IsLeast(m, s)
    decreases s
  {
    var x :| x in s;
    if s == {x} {
      assert IsLeast(x, s);
    } else {
      LeastExists(s - {x});
      var m :| IsLeast(m, s - {x});
      if Less(x, m) {
        forall y | y in s
          ensures y == x || Less(x, y)
        {
          if y != x && y != m {
            LessTransitive(x, m, y);
          }
        }
        assert IsLeast(x, s);
      } else {
        LessTotal(x, m);
        assert IsLeast(m, s);
      }
    }
  }

  lemma LeastUnique(m1: string, m2: string, s: set<string>)
    requires IsLeast(m1, s) && IsLeast(m2, s)
    ensures m1 == m2
  {
    if m1 != m2 {
      LessAsymmetric(m1, m2);
    }
  }

  ghost function Least(s: set<string>): (m: string)
    requires s != {}
    ensures IsLeast(m, s)
  {
    LeastExists(s);
    var m :| IsLeast(m, s); m
  }

  /** Every name is smaller than every later one: sorted, without repeats. */
  predicate StrictlySorted(q: seq<string>)
  {
    forall i, j :: 0 <= i < j < |q| ==> Less(q[i], q[j])
  }

  /** The names of `s` in ascending order, as `sorted` lists a set of keys. */
  ghost function SortedNames(s: set<string>): (q: seq<string>)
    ensures |q| == |s|
    decreases s
  {
    if s == {} then [] else [Least(s)] + SortedNames(s - {Least(s)})
  }

  /** `SortedNames` lists exactly the names of `s`, each smaller than every
      later one. */
  lemma {:induction false} SortedNamesSorted(s: set<string>)
    ensures StrictlySorted(SortedNames(s))
    ensures forall x :: x in SortedNames(s) <==> x in s
    decreases s
  {
    if s != {} {
      var m := Least(s);
      var rest := SortedNames(s - {m});
      SortedNamesSorted(s - {m});
      assert SortedNames(s) == [m] + rest;
      forall j | 0 <= j < |rest| ensures Less(m, rest[j]) {
        assert rest[j] in s - {m};
      }
    }
  }

  /** A strictly sorted listing of a set is unique: it is `SortedNames`. */
  lemma {:induction false} SortedNamesUnique(q: seq<string>, s: set<string>)
    requires StrictlySorted(q)
    requires forall x :: x in q <==> x in s
    ensures q == SortedNames(s)
    decreases |q|
  {
    if q == [] {
      assert s == {};
    } else {
      assert IsLeast(q[0], s) by {
        forall x | x in s ensures x == q[0] || Less(q[0], x) {
          var i :| 0 <= i < |q| && q[i] == x;
        }
      }
      LeastUnique(q[0], Least(s), s);
      assert SortedNames(s) == [q[0]] + SortedNames(s - {q[0]});
      forall x
        ensures x in q[1..] <==> x in s - {q[0]}
      {
        if x in q[1..] {
          var i :| 1 <= i < |q| && q[i] == x;
          if x == q[0] {
            LessIrreflexive(q[0]);
          }
        }
        if x in s - {q[0]} {
          var i :| 0 <= i < |q| && q[i] == x;
          assert i != 0;
          assert x == q[1..][i - 1];
        }
      }
      SortedNamesUnique(q[1..], s - {q[0]});
      assert q == [q[0]] + q[1..];
    }
  }

  /** `sorted(keys)` on a set of distinct names: repeatedly takes the least
      remaining one. */
  method SortKeys(s: set<string>) returns (q: seq<string>)
    ensures q == SortedNames(s)
    ensures forall x :: x in q <==> x in s
  {
    q := [];
    var rest := s;
    while rest != {}
      invariant q + SortedNames(rest) == SortedNames(s)
      decreases rest
    {
      LeastExists(rest);
      var m :| m in rest && IsLeast(m, rest);
      LeastUnique(m, Least(rest), rest);
      assert SortedNames(rest) == [m] + SortedNames(rest - {m});
      q := q + [m];
      rest := rest - {m};
    }
    SortedNamesSorted(s);
  }

  /** Python's `sep.join(parts)`. */
  function Join(parts: seq<string>, sep: string): string
    decreases |parts|
  {
    if |parts| == 0 then ""
    else if |parts| == 1 then parts[0]
    else parts[0] + sep + Join(parts[1..], sep)
  }

  lemma {:induction false} JoinConcat(xs: seq<string>, ys: seq<string>, sep: string)
    requires |xs| > 0 && |ys| > 0
    ensures Join(xs + ys, sep) == Join(xs, sep) + sep + Join(ys, sep)
    decreases |xs|
  {
    if |xs| == 1 {
      assert (xs + ys)[1..] == ys;
    } else {
      assert (xs + ys)[1..] == xs[1..] + ys;
      JoinConcat(xs[1..], ys, sep);
    }
  }

  /** Python's `s.split(c)` for a one-character separator; there is always
      at least one piece. */
  function Split(s: string, c: char): (parts: seq<string>)
    ensures |parts| >= 1
    decreases |s|
  {
    if |s| == 0 then [""]
    else
      var rest := Split(s[1..], c);
      if s[0] == c then [""] + rest
      else [[s[0]] + rest[0]] + rest[1..]
  }

  /** No piece holds the separator, and joining the pieces with it gives `s`
      back. */
  lemma {:induction false} JoinSplit(s: string, c: char)
    ensures forall p :: p in Split(s, c) ==> c !in p
    ensures Join(Split(s, c), [c]) == s
    decreases |s|
  {
    if |s| > 0 {
      JoinSplit(s[1..], c);
      var rest := Split(s[1..], c);
      if s[0] != c {
        var parts := [[s[0]] + rest[0]] + rest[1..];
        assert parts == Split(s, c);
        forall p | p in parts ensures c !in p {
          if p != [s[0]] + rest[0] {
            assert p in rest;
          } else {
            assert rest[0] in rest;
          }
        }
        if |rest| > 1 {
          assert parts[1..] == rest[1..];
          assert Join(rest, [c]) == rest[0] + [c] + Join(rest[1..], [c]);
        }
        assert s == [s[0]] + s[1..];
      }
    }
  }

  /** Splitting undoes joining, when no piece holds the separator. */
  lemma {:induction false} SplitJoin(parts: seq<string>, c: char)
    requires |parts| >= 1
    requires forall p :: p in parts ==> c !in p
    ensures Split(Join(parts, [c]), c) == parts
    decreases |parts|, |parts[0]|
  {
    var p := parts[0];
    if |p| == 0 {
      if |parts| > 1 {
        SplitJoin(parts[1..], c);
        assert Join(parts, [c]) == [c] + Join(parts[1..], [c]);
        assert Join(parts, [c])[1..] == Join(parts[1..], [c]);
        assert parts == [""] + parts[1..];
      }
    } else {
      var shorter := [p[1..]] + parts[1..];
      assert forall q :: q in shorter ==> c !in q by {
        forall q | q in shorter ensures c !in q {
          if q != p[1..] {
            assert q in parts;
          } else {
            assert p in parts;
          }
        }
      }
      SplitJoin(shorter, c);
      assert shorter[1..] == parts[1..];
      assert Join(parts, [c]) == [p[0]] + Join(shorter, [c]);
      assert Join(parts, [c])[1..] == Join(shorter, [c]);
      assert p[0] != c by {
        assert p in parts;
        assert p[0] in p;
      }
      assert [p[0]] + p[1..] == p;
      assert [[p[0]] + p[1..]] + parts[1..] == parts;
    }
  }

  /** `s * n` in Python. */
  function Repeat(s: string, n: nat): string
    decreases n
  {
    if n == 0 then "" else s + Repeat(s, n - 1)
  }

  lemma {:induction false} RepeatAlternates(n: nat, i: nat)
    requires i < 2 * n
    ensures |Repeat("+-", n)| == 2 * n
    ensures Repeat("+-", n)[i] == if i % 2 == 0 then '+' else '-'
    decreases n
  {
    if i < 2 {
      if n > 1 {
        RepeatAlternates(n - 1, 0);
      }
    } else {
      RepeatAlternates(n - 1, i - 2);
    }
  }

  /** There is one more piece than there are separators. */
  lemma {:induction false} SplitCount(s: string, c: char)
    ensures |Split(s, c)| == multiset(s)[c] + 1
    decreases |s|
  {
    if |s| > 0 {
      SplitCount(s[1..], c);
      assert s == [s[0]] + s[1..];
      assert multiset(s) == multiset{s[0]} + multiset(s[1..]);
    }
  }

  /** Joining starts with the joined front and a separator. */
  lemma JoinStart(xs: seq<string>, ys: seq<string>, sep: string)
    requires |xs| > 0 && |ys| > 0
    ensures var front := Join(xs, sep) + sep;
            |front| <= |Join(xs + ys, sep)| && Join(xs + ys, sep)[..|front|] == front
  {
    JoinConcat(xs, ys, sep);
  }

  /** A final empty part leaves the text ending with the separator. */
  lemma JoinEnd(xs: seq<string>, sep: string)
    requires |xs| > 0
    ensures Join(xs + [""], sep) == Join(xs, sep) + sep
  {
    JoinConcat(xs, [""], sep);
  }
}
