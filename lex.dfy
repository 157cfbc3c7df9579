/** The ordering `std::map<std::string, ...>` keeps its keys in: strings compared
    lexicographically, character by character, a proper prefix first. Iterating such
    a map visits its keys in this order, which is what fixes the column order of a
    header and the order of the groups of a store. */
module Lex {

  /** `a < b` on strings: the first differing character decides, and a proper
      prefix comes before the longer string. */
  predicate Less(a: string, b: string)
    decreases |a|
  {
    if |a| == 0 then |b| > 0
    else if |b| == 0 then false
    else a[0] < b[0] || (a[0] == b[0] && Less(a[1..], b[1..]))
  }

  lemma {:induction false} LessIrreflexive(a: string)
    ensures !Less(a, a)
  {
    if |a| > 0 {
      LessIrreflexive(a[1..]);
    }
  }

  lemma {:induction false} LessAsymmetric(a: string, b: string)
    ensures Less(a, b) ==> !Less(b, a)
  {
    if |a| > 0 && |b| > 0 && a[0] == b[0] {
      LessAsymmetric(a[1..], b[1..]);
    }
  }

  lemma {:induction false} LessTransitive(a: string, b: string, c: string)
    requires Less(a, b) && Less(b, c)
    ensures Less(a, c)
  {
    if |a| > 0 && a[0] == b[0] && b[0] == c[0] {
      LessTransitive(a[1..], b[1..], c[1..]);
    }
  }

  /** Any two different strings are ordered one way or the other. */
  lemma {:induction false} LessTotal(a: string, b: string)
    ensures a == b || Less(a, b) || Less(b, a)
  {
    if |a| > 0 && |b| > 0 && a[0] == b[0] {
      LessTotal(a[1..], b[1..]);
      if a[1..] == b[1..] {
        assert a == [a[0]] + a[1..] && b == [b[0]] + b[1..];
      }
    }
  }

  /** Every element comes strictly before every later element: ascending and
      without repetitions. */
  predicate StrictlySorted(s: seq<string>)
  {
    forall i, j :: 0 <= i < j < |s| ==> Less(s[i], s[j])
  }

  /** Each name before the next is enough for a strictly ascending list. */
  lemma {:induction false} ChainSorted(s: seq<string>)
    requires forall i :: 0 <= i < |s| - 1 ==> Less(s[i], s[i + 1])
    ensures StrictlySorted(s)
    decreases |s|
  {
    if |s| > 1 {
      var rest := s[1..];
      forall i | 0 <= i < |rest| - 1
        ensures Less(rest[i], rest[i + 1])
      {
        assert rest[i] == s[i + 1] && rest[i + 1] == s[i + 2];
      }
      ChainSorted(rest);
      forall i, j | 0 <= i < j < |s|
        ensures Less(s[i], s[j])
      {
        if i > 0 {
          assert s[i] == rest[i - 1] && s[j] == rest[j - 1];
        } else if j > 1 {
          assert s[1] == rest[0] && s[j] == rest[j - 1];
          LessTransitive(s[0], s[1], s[j]);
        }
      }
    }
  }

  /** `m` is the least element of `s`. */
  predicate IsLeast(m: string, s: set<string>)
  {
    m in s && forall x :: x in s && x != m ==> Less(m, x)
  }

  lemma {:induction false} LeastExists(s: set<string>)
    requires s != {}
    ensures exists m :: IsLeast(m, s)
    decreases s
  {
    var x :| x in s;
    if s != {x} {
      LeastExists(s - {x});
      var m :| IsLeast(m, s - {x});
      LessTotal(x, m);
      if Less(x, m) {
        forall y | y in s && y != x
          ensures Less(x, y)
        {
          if y != m {
            LessTransitive(x, m, y);
          }
        }
        assert IsLeast(x, s);
      } else {
        assert IsLeast(m, s);
      }
    } else {
      assert IsLeast(x, s);
    }
  }

  /** The keys of a set in the order a `std::map` iterates them. */
  ghost function SortedKeys(s: set<string>): seq<string>
    decreases s
  {
    if s == {} then []
    else
      LeastExists(s);
      var m :| IsLeast(m, s);
      [m] + SortedKeys(s - {m})
  }

  /** `SortedKeys` lists every element of the set once, in ascending order. */
  lemma {:induction false} SortedKeysSpec(s: set<string>)
    ensures StrictlySorted(SortedKeys(s))
    ensures forall x :: x in SortedKeys(s) <==> x in s
    decreases s
  {
    if s != {} {
      LeastExists(s);
      var m :| IsLeast(m, s) && SortedKeys(s) == [m] + SortedKeys(s - {m});
      var rest := SortedKeys(s - {m});
      SortedKeysSpec(s - {m});
      var r := [m] + rest;
      forall i, j | 0 <= i < j < |r|
        ensures Less(r[i], r[j])
      {
        assert r[j] == rest[j - 1] && r[j] in s - {m};
        if i > 0 {
          assert r[i] == rest[i - 1];
        }
      }
      forall x
        ensures x in r <==> x in s
      {
        if x in s && x != m {
          assert x in rest;
        }
      }
    }
  }

  lemma HeadIn(s: seq<string>)
    ensures |s| > 0 ==> s[0] in s
  {
  }

  /** A strictly sorted sequence is determined by its elements. */
  lemma {:induction false} SortedUnique(a: seq<string>, b: seq<string>)
    requires StrictlySorted(a) && StrictlySorted(b)
    requires forall x :: x in a <==> x in b
    ensures a == b
    decreases |a|
  {
    if |a| > 0 && |b| > 0 {
      LessIrreflexive(a[0]);
      if a[0] != b[0] {
        assert b[0] in a && a[0] in b;
        var i :| 0 <= i < |a| && a[i] == b[0];
        var j :| 0 <= j < |b| && b[j] == a[0];
        LessAsymmetric(a[0], b[0]);
        assert false;
      }
      forall x
        ensures x in a[1..] <==> x in b[1..]
      {
        if x in a[1..] {
          var i :| 1 <= i < |a| && a[i] == x;
          assert x in b;
          var k :| 0 <= k < |b| && b[k] == x;
          assert k != 0;
          assert b[k] == b[1..][k - 1];
        }
        if x in b[1..] {
          var j :| 1 <= j < |b| && b[j] == x;
          assert x in a;
          var k :| 0 <= k < |a| && a[k] == x;
          assert k != 0;
          assert a[k] == a[1..][k - 1];
        }
      }
      SortedUnique(a[1..], b[1..]);
      assert a == [a[0]] + a[1..] && b == [b[0]] + b[1..];
    } else if |a| > 0 || |b| > 0 {
      HeadIn(a);
      HeadIn(b);
      assert false;
    }
  }

  /** In-order iteration: the sorted keys of a set start with its least key and
      go on with the sorted keys of the rest. */
  lemma SortedKeysStep(s: set<string>, m: string)
    requires IsLeast(m, s)
    ensures SortedKeys(s) == [m] + SortedKeys(s - {m})
  {
    var rest := SortedKeys(s - {m});
    SortedKeysSpec(s - {m});
    SortedKeysSpec(s);
    var r := [m] + rest;
    forall i, j | 0 <= i < j < |r|
      ensures Less(r[i], r[j])
    {
      assert r[j] == rest[j - 1] && r[j] in s - {m};
      if i > 0 {
        assert r[i] == rest[i - 1];
      }
    }
    SortedUnique(SortedKeys(s), r);
  }

  /** A walk over the keys of `keys` in ascending order has visited `done` so far
      and has `rest` still to visit. */
  ghost predicate VisitedInOrder(done: seq<string>, rest: set<string>, keys: set<string>)
  {
    SortedKeys(keys) == done + SortedKeys(rest)
  }

  lemma VisitStart(keys: set<string>)
    ensures VisitedInOrder([], keys, keys)
  {
  }

  lemma VisitNext(done: seq<string>, rest: set<string>, keys: set<string>, m: string)
    requires VisitedInOrder(done, rest, keys) && IsLeast(m, rest)
    ensures VisitedInOrder(done + [m], rest - {m}, keys)
  {
    SortedKeysStep(rest, m);
  }

  lemma VisitEnd(done: seq<string>, keys: set<string>)
    requires VisitedInOrder(done, {}, keys)
    ensures done == SortedKeys(keys)
  {
    assert SortedKeys({}) == [];
  }

  /** One step of a `std::map` iterator: the least key not visited yet. */
  method LeastKey(s: set<string>) returns (m: string)
    requires s != {}
    ensures IsLeast(m, s)
  {
    LeastExists(s);
    m :| IsLeast(m, s);
  }
}
