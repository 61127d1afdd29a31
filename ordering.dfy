/**
 * The order `sorted()` puts the cheat sheet's group names in: strings
 * compared lexicographically by Unicode scalar value, a shorter prefix first.
 * Swift compares the NFC forms of two strings, so this is its order for names
 * already in NFC.
 */
module Ordering {

  /** `a < b` on strings, scalar by scalar. */
  predicate Less(a: string, b: string)
  {
    if a == [] then b != []
    else if b == [] then false
    else if a[0] != b[0] then a[0] < b[0]
    else Less(a[1..], b[1..])
  }

  lemma {:induction false} LessIrreflexive(a: string)
    ensures !Less(a, a)
  {
    if a != [] {
      LessIrreflexive(a[1..]);
    }
  }

  lemma {:induction false} LessAsymmetric(a: string, b: string)
    requires Less(a, b)
    ensures !Less(b, a)
  {
    if a != [] && b != [] && a[0] == b[0] {
      LessAsymmetric(a[1..], b[1..]);
    }
  }

  lemma {:induction false} LessTransitive(a: string, b: string, c: string)
    requires Less(a, b) && Less(b, c)
    ensures Less(a, c)
  {
    if a != [] && b != [] && c != [] && a[0] == b[0] && b[0] == c[0] {
      LessTransitive(a[1..], b[1..], c[1..]);
    }
  }

  lemma {:induction false} LessTotal(a: string, b: string)
    requires a != b
    ensures Less(a, b) || Less(b, a)
  {
    if a != [] && b != [] && a[0] == b[0] {
      assert a == [a[0]] + a[1..] && b == [b[0]] + b[1..];
      LessTotal(a[1..], b[1..]);
    }
  }

  /** Every element of the sequence comes before every later one. */
  predicate StrictlySorted(ks: seq<string>)
  {
    forall i, j :: 0 <= i < j < |ks| ==> Less(ks[i], ks[j])
  }

  /** `m` is the least element of `s`. */
  predicate IsLeast(m: string, s: set<string>)
  {
    m in s && forall x :: x in s ==> !Less(x, m)
  }

  /** A non-empty finite set of strings has a least element. */
  lemma {:induction false} LeastExists(s: set<string>)
    requires s != {}
    ensures exists m :: IsLeast(m, s)
    decreases |s|
  {
    var y :| y in s;
    if s != {y} {
      var rest := s - {y};
      LeastExists(rest);
      var m :| IsLeast(m, rest);
      if Less(y, m) {
        forall x | x in s
          ensures !Less(x, y)
        {
          if x == y {
            LessIrreflexive(y);
          } else if Less(x, y) {
            LessTransitive(x, y, m);
          }
        }
        assert IsLeast(y, s);
      } else {
        LessIrreflexive(m);
        assert IsLeast(m, s);
      }
    } else {
      LessIrreflexive(y);
      assert IsLeast(y, s);
    }
  }

  /** There is only one least element. */
  lemma LeastUnique(m: string, n: string, s: set<string>)
    requires IsLeast(m, s) && IsLeast(n, s)
    ensures m == n
  {
    if m != n {
      LessTotal(m, n);
    }
  }

  /** The elements of `s` in ascending order. */
  ghost function SortedKeys(s: set<string>): seq<string>
    decreases |s|
  {
    if s == {} then []
    else
      LeastExists(s);
      var m :| IsLeast(m, s);
      [m] + SortedKeys(s - {m})
  }

  /** `SortedKeys` starts with the least element. */
  lemma SortedKeysCons(s: set<string>, m: string)
    requires IsLeast(m, s)
    ensures SortedKeys(s) == [m] + SortedKeys(s - {m})
  {
    LeastExists(s);
    var m' :| IsLeast(m', s) && SortedKeys(s) == [m'] + SortedKeys(s - {m'});
    LeastUnique(m, m', s);
  }

  /** `SortedKeys` lists exactly the elements of the set, each once. */
  lemma {:induction false} SortedKeysMembers(s: set<string>)
    ensures |SortedKeys(s)| == |s|
    ensures forall k :: k in SortedKeys(s) <==> k in s
    decreases |s|
  {
    if s != {} {
      LeastExists(s);
      var m :| IsLeast(m, s);
      SortedKeysCons(s, m);
      SortedKeysMembers(s - {m});
    }
  }

  /** `SortedKeys` lists each element once, in ascending order. */
  lemma {:induction false} SortedKeysSorted(s: set<string>)
    ensures StrictlySorted(SortedKeys(s))
    decreases |s|
  {
    if s != {} {
      LeastExists(s);
      var m :| IsLeast(m, s);
      SortedKeysCons(s, m);
      var rest := SortedKeys(s - {m});
      SortedKeysSorted(s - {m});
      SortedKeysMembers(s - {m});
      forall j | 0 <= j < |rest|
        ensures Less(m, rest[j])
      {
        assert rest[j] in s - {m};
        LessTotal(m, rest[j]);
      }
    }
  }

  /** A strictly sorted listing of a set is `SortedKeys` of that set: the order is fully determined. */
  lemma {:induction false} SortedListingUnique(ks: seq<string>, s: set<string>)
    requires StrictlySorted(ks)
    requires forall k :: k in ks <==> k in s
    ensures ks == SortedKeys(s)
    decreases |ks|
  {
    if ks == [] {
      assert s == {};
    } else {
      var m := ks[0];
      forall x | x in s
        ensures !Less(x, m)
      {
        var j :| 0 <= j < |ks| && ks[j] == x;
        if j == 0 {
          LessIrreflexive(m);
        } else {
          LessAsymmetric(m, x);
        }
      }
      SortedKeysCons(s, m);
      forall k
        ensures k in ks[1..] <==> k in s - {m}
      {
        if k in ks[1..] {
          var j :| 1 <= j < |ks| && ks[j] == k;
          LessIrreflexive(m);
          assert Less(ks[0], ks[j]);
        }
        if k in s - {m} {
          var j :| 0 <= j < |ks| && ks[j] == k;
          assert j != 0;
          assert ks[1..][j - 1] == k;
        }
      }
      SortedListingUnique(ks[1..], s - {m});
    }
  }

  /**
   * Stands in for the library call `keys.sorted()`, whose algorithm is not
   * the program's own: only its result is modelled, here by repeatedly taking
   * the least remaining key. The result is the unique ascending listing of the keys.
   */
  method Sorted(keys: set<string>) returns (ks: seq<string>)
    ensures ks == SortedKeys(keys)
  {
    ks := [];
    var rest := keys;
    while rest != {}
      invariant rest <= keys
      invariant ks + SortedKeys(rest) == SortedKeys(keys)
      decreases |rest|
    {
      LeastExists(rest);
      var m :| IsLeast(m, rest);
      SortedKeysCons(rest, m);
      ks := ks + [m];
      rest := rest - {m};
    }
  }
}
