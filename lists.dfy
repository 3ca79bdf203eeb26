/** Operations on the symbol lists that cells and groups keep (Rust `Vec<u8>`). */
module Lists {

  predicate NoDup(s: seq<nat>) {
    forall i, j :: 0 <= i < j < |s| ==> s[i] != s[j]
  }

  /** Strictly ascending, so also free of repetition. */
  predicate Increasing(s: seq<nat>) {
    forall i, j :: 0 <= i < j < |s| ==> s[i] < s[j]
  }

  /** Ascending, repetition allowed: what `Vec::sort` produces. */
  predicate Ascending(s: seq<nat>) {
    forall i, j :: 0 <= i < j < |s| ==> s[i] <= s[j]
  }

  /** `iter().filter(|n| *n != a).collect()`. */
  function Without(s: seq<nat>, a: nat): seq<nat>
  {
    if s == [] then []
    else (if s[0] == a then [] else [s[0]]) + Without(s[1..], a)
  }

  lemma {:induction false} WithoutMembers(s: seq<nat>, a: nat)
    ensures forall v :: v in Without(s, a) <==> v in s && v != a
    ensures |Without(s, a)| <= |s|
  {
    if s != [] {
      WithoutMembers(s[1..], a);
      assert s == [s[0]] + s[1..];
    }
  }

  /** Filtering distributes over concatenation: the kept entries stay in their order. */
  lemma {:induction false} WithoutAppend(s: seq<nat>, t: seq<nat>, a: nat)
    ensures Without(s + t, a) == Without(s, a) + Without(t, a)
  {
    if s == [] {
      assert s + t == t;
    } else {
      assert (s + t)[1..] == s[1..] + t;
      WithoutAppend(s[1..], t, a);
    }
  }

  /** Removing a symbol that is not there changes nothing. */
  lemma {:induction false} WithoutAbsent(s: seq<nat>, a: nat)
    requires a !in s
    ensures Without(s, a) == s
  {
    if s != [] {
      WithoutAbsent(s[1..], a);
    }
  }

  lemma WithoutTwice(s: seq<nat>, a: nat)
    ensures Without(Without(s, a), a) == Without(s, a)
  {
    WithoutMembers(s, a);
    WithoutAbsent(Without(s, a), a);
  }

  lemma {:induction false} WithoutNoDup(s: seq<nat>, a: nat)
    requires NoDup(s)
    ensures NoDup(Without(s, a))
  {
    if s != [] {
      assert NoDup(s[1..]) by {
        forall i, j | 0 <= i < j < |s[1..]| ensures s[1..][i] != s[1..][j] {
          assert s[1..][i] == s[i + 1] && s[1..][j] == s[j + 1];
        }
      }
      var t := Without(s[1..], a);
      WithoutNoDup(s[1..], a);
      WithoutMembers(s[1..], a);
      if s[0] != a {
        var r := [s[0]] + t;
        assert s[0] !in s[1..] by {
          forall k | 0 <= k < |s[1..]| ensures s[1..][k] != s[0] {
            assert s[1..][k] == s[k + 1];
          }
        }
        forall i, j | 0 <= i < j < |r| ensures r[i] != r[j] {
          assert r[j] == t[j - 1];
          if i == 0 {
            assert t[j - 1] in t;
          } else {
            assert r[i] == t[i - 1];
          }
        }
      }
    }
  }

  /** The lists of several groups laid end to end (`iter().flatten()`). */
  function Flatten(ls: seq<seq<nat>>): seq<nat>
  {
    if ls == [] then [] else ls[0] + Flatten(ls[1..])
  }

  /** A symbol occurs in the flattened list exactly as often as in all lists together. */
  lemma {:induction false} FlattenCount(ls: seq<seq<nat>>, v: nat)
    ensures multiset(Flatten(ls))[v] == CountIn(ls, v)
  {
    if ls != [] {
      FlattenCount(ls[1..], v);
    }
  }

  /** How many of the lists contain `v`, each counted with its multiplicity. */
  function CountIn(ls: seq<seq<nat>>, v: nat): nat
  {
    if ls == [] then 0 else multiset(ls[0])[v] + CountIn(ls[1..], v)
  }

  /** When no list repeats a symbol, `v` is in all `n` lists exactly when it occurs `n` times. */
  lemma {:induction false} CountInAll(ls: seq<seq<nat>>, v: nat)
    requires forall i :: 0 <= i < |ls| ==> NoDup(ls[i])
    ensures CountIn(ls, v) <= |ls|
    ensures CountIn(ls, v) == |ls| <==> forall i :: 0 <= i < |ls| ==> v in ls[i]
  {
    if ls != [] {
      CountInAll(ls[1..], v);
      CountAtMostOne(ls[0], v);
      if v !in ls[0] {
        assert multiset(ls[0])[v] == 0;
      }
      if forall i :: 0 <= i < |ls| ==> v in ls[i] {
        assert forall i :: 0 <= i < |ls[1..]| ==> v in ls[1..][i] by {
          forall i | 0 <= i < |ls[1..]| ensures v in ls[1..][i] {
            assert ls[1..][i] == ls[i + 1];
          }
        }
      }
      if CountIn(ls, v) == |ls| {
        forall i | 0 <= i < |ls| ensures v in ls[i] {
          if i > 0 { assert ls[1..][i - 1] == ls[i]; }
        }
      }
    }
  }

  /** A list without repetition holds each symbol at most once. */
  lemma {:induction false} CountAtMostOne(s: seq<nat>, v: nat)
    requires NoDup(s)
    ensures multiset(s)[v] == if v in s then 1 else 0
  {
    if s != [] {
      assert s == [s[0]] + s[1..];
      CountAtMostOne(s[1..], v);
    }
  }

  /** Insertion of one symbol into an ascending list (the step of `Sort`). */
  function Insert(x: nat, s: seq<nat>): seq<nat>
  {
    if s == [] || x <= s[0] then [x] + s else [s[0]] + Insert(x, s[1..])
  }

  lemma {:induction false} InsertMembers(x: nat, s: seq<nat>)
    ensures multiset(Insert(x, s)) == multiset(s) + multiset{x}
    ensures |Insert(x, s)| == |s| + 1
    ensures forall v :: v in Insert(x, s) <==> v == x || v in s
  {
    assert s == [] || s == [s[0]] + s[1..];
    if s != [] && x > s[0] {
      InsertMembers(x, s[1..]);
    }
  }

  lemma {:induction false} InsertSorted(x: nat, s: seq<nat>)
    requires Ascending(s)
    ensures Ascending(Insert(x, s))
  {
    if s != [] && x > s[0] {
      var t := Insert(x, s[1..]);
      InsertSorted(x, s[1..]);
      InsertMembers(x, s[1..]);
      forall k | 0 <= k < |t| ensures s[0] <= t[k] {
        assert t[k] in t;
        if t[k] != x {
          var m :| 0 <= m < |s[1..]| && s[1..][m] == t[k];
          assert s[m + 1] == t[k];
        }
      }
      var r := [s[0]] + t;
      forall i, j | 0 <= i < j < |r| ensures r[i] <= r[j] {
        assert r[j] == t[j - 1];
        if i > 0 { assert r[i] == t[i - 1]; }
      }
    }
  }

  /** `Vec::sort` on symbols: an ascending permutation of its input. */
  function Sort(s: seq<nat>): (r: seq<nat>)
    ensures Ascending(r) && multiset(r) == multiset(s) && |r| == |s|
  {
    if s == [] then []
    else
      var t := Sort(s[1..]);
      InsertSorted(s[0], t);
      InsertMembers(s[0], t);
      HeadTailMultiset(s);
      Insert(s[0], t)
  }

  lemma HeadTailMultiset(s: seq<nat>)
    requires s != []
    ensures multiset(s) == multiset(s[1..]) + multiset{s[0]}
  {
    assert s == [s[0]] + s[1..];
  }

  /** The set of a list's elements. */
  function Elems(s: seq<nat>): set<nat> {
    set x | x in s
  }

  /** A list with `x` in front has no repetition when `x` is not in the rest and the rest has none. */
  lemma NoDupConsOf(x: nat, rest: seq<nat>)
    ensures NoDup([x] + rest) <==> x !in rest && NoDup(rest)
  {
    ConsTail(x, rest);
    NoDupCons([x] + rest);
  }

  /** A non-empty list has no repetition when its head is not repeated and its tail has none. */
  lemma NoDupCons(s: seq<nat>)
    requires s != []
    ensures NoDup(s) <==> s[0] !in s[1..] && NoDup(s[1..])
  {
    if NoDup(s) {
      forall k | 0 <= k < |s[1..]| ensures s[1..][k] != s[0] {
        assert s[1..][k] == s[k + 1];
      }
      forall i, j | 0 <= i < j < |s[1..]| ensures s[1..][i] != s[1..][j] {
        assert s[1..][i] == s[i + 1] && s[1..][j] == s[j + 1];
      }
    }
    if s[0] !in s[1..] && NoDup(s[1..]) {
      forall i, j | 0 <= i < j < |s| ensures s[i] != s[j] {
        assert s[j] == s[1..][j - 1];
        if i > 0 { assert s[i] == s[1..][i - 1]; }
      }
    }
  }

  /** A list has no repetition exactly when its set of elements is as large as the list. */
  lemma {:induction false} NoDupCard(s: seq<nat>)
    ensures NoDup(s) <==> |Elems(s)| == |s|
  {
    if s != [] {
      assert s == [s[0]] + s[1..];
      NoDupCard(s[1..]);
      NoDupCons(s);
      SetAtMost(s[1..]);
      assert Elems(s) == Elems(s[1..]) + {s[0]};
      if s[0] in s[1..] {
        assert Elems(s) == Elems(s[1..]);
      } else {
        assert |Elems(s)| == |Elems(s[1..])| + 1;
      }
    }
  }

  /** The set of a list's elements is never larger than the list. */
  lemma {:induction false} SetAtMost(s: seq<nat>)
    ensures |Elems(s)| <= |s|
  {
    if s != [] {
      assert s == [s[0]] + s[1..];
      SetAtMost(s[1..]);
      assert Elems(s) == Elems(s[1..]) + {s[0]};
    }
  }

  /** Two strictly ascending lists with the same elements are the same list. */
  lemma {:induction false} IncreasingUnique(s: seq<nat>, t: seq<nat>)
    requires Increasing(s) && Increasing(t)
    requires forall x :: x in s <==> x in t
    ensures s == t
  {
    if s != [] { assert s[0] in s; }
    if t != [] { assert t[0] in t; }
    if s != [] && t != [] {
      var i :| 0 <= i < |t| && t[i] == s[0];
      var j :| 0 <= j < |s| && s[j] == t[0];
      assert s[0] == t[0];
      forall x ensures x in s[1..] <==> x in t[1..] {
        TailMembers(s, x);
        TailMembers(t, x);
      }
      IncreasingUnique(s[1..], t[1..]);
      assert s == [s[0]] + s[1..];
      assert t == [t[0]] + t[1..];
    }
  }

  /** The tail of a strictly ascending list holds its elements other than the head. */
  lemma TailMembers(s: seq<nat>, x: nat)
    requires Increasing(s) && s != []
    ensures x in s[1..] <==> x in s && x != s[0]
  {
    if x in s && x != s[0] {
      var k :| 0 <= k < |s| && s[k] == x;
      assert s[1..][k - 1] == x;
    }
    if x in s[1..] {
      var k :| 0 <= k < |s[1..]| && s[1..][k] == x;
      assert s[k + 1] == x;
    }
  }

  /** In a strictly ascending list the head is below every later element. */
  lemma HeadBelowTail(s: seq<nat>)
    requires s != []
    ensures Increasing(s) ==> forall v :: v in s[1..] ==> s[0] < v
  {
    if Increasing(s) {
      forall v | v in s[1..] ensures s[0] < v {
        var k :| 0 <= k < |s[1..]| && s[1..][k] == v;
        assert s[k + 1] == v;
      }
    }
  }

  lemma IncreasingTail(s: seq<nat>)
    requires s != []
    ensures Increasing(s) ==> Increasing(s[1..])
  {
    if Increasing(s) {
      forall i, j | 0 <= i < j < |s[1..]| ensures s[1..][i] < s[1..][j] {
        assert s[1..][i] == s[i + 1] && s[1..][j] == s[j + 1];
      }
    }
  }

  /** A strictly ascending list stays so when a larger element is put in front of it. */
  lemma PrependBelow(x: nat, s: seq<nat>)
    requires Increasing(s) && forall v :: v in s ==> x < v
    ensures Increasing([x] + s)
  {
    var r := [x] + s;
    forall i, j | 0 <= i < j < |r| ensures r[i] < r[j] {
      assert r[j] == s[j - 1] && s[j - 1] in s;
      if i > 0 { assert r[i] == s[i - 1]; }
    }
  }

  /** A strictly ascending list stays so when a larger element is put at its end. */
  lemma AppendAbove(s: seq<nat>, x: nat)
    requires Increasing(s) && forall v :: v in s ==> v < x
    ensures Increasing(s + [x])
  {
    var r := s + [x];
    forall i, j | 0 <= i < j < |r| ensures r[i] < r[j] {
      assert r[i] == s[i] && s[i] in s;
      if j < |s| { assert r[j] == s[j]; }
    }
  }

  /** A non-empty list is its front followed by its last entry. */
  lemma PrefixSnoc<T>(s: seq<T>, k: nat)
    requires k < |s|
    ensures s[..k + 1] == s[..k] + [s[k]]
  {
  }

  lemma PrefixStep<T>(s: seq<T>, k: nat)
    requires k < |s|
    ensures |s[..k + 1]| == k + 1 && s[..k + 1][..k] == s[..k] && s[..k + 1][k] == s[k]
  {
  }

  lemma ConsAppend<T>(s: seq<T>, t: seq<T>)
    requires s != []
    ensures (s + t)[0] == s[0] && (s + t)[1..] == s[1..] + t
  {
  }

  lemma AppendAssoc<T>(a: seq<T>, b: seq<T>, c: seq<T>)
    ensures a + (b + c) == (a + b) + c
  {
  }

  lemma ConsTail<T>(x: T, s: seq<T>)
    ensures ([x] + s)[0] == x && ([x] + s)[1..] == s
  {
  }

  lemma SplitLast<T>(s: seq<T>)
    requires s != []
    ensures s == s[..|s| - 1] + [s[|s| - 1]]
  {
  }
}
