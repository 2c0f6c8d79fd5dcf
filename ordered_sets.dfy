/** A JavaScript `Set` of the validator (the per-source result, `allProxies`,
    `validProxies`) is modelled by the sequence of its elements in insertion
    order: `Array.from(set)` is then the sequence itself, and `set.add(x)` is
    `Add`. */
module OrderedSets {

  datatype Option<T> = None | Some(value: T)

  /** No element occurs twice. */
  predicate NoDup<T(==)>(s: seq<T>) {
    forall i, j :: 0 <= i < j < |s| ==> s[i] != s[j]
  }

  /** The elements, forgetting the order. */
  function Elems<T>(s: seq<T>): set<T> {
    set x | x in s
  }

  /** `set.add(x)`: appends `x` unless it is already present. */
  function Add<T(==)>(s: seq<T>, x: T): seq<T> {
    if x in s then s else s + [x]
  }

  /** `xs.forEach(x => set.add(x))`: adds every element of `xs`, left to right. */
  function AddAll<T(==)>(s: seq<T>, xs: seq<T>): seq<T>
    decreases |xs|
  {
    if xs == [] then s else AddAll(Add(s, xs[0]), xs[1..])
  }

  /** `set.add(x)` adds `x` and nothing else, keeps the set duplicate-free, and
      keeps the earlier elements in their places. */
  lemma AddSpec<T>(s: seq<T>, x: T)
    ensures Elems(Add(s, x)) == Elems(s) + {x}
    ensures NoDup(s) ==> NoDup(Add(s, x))
    ensures |s| <= |Add(s, x)| && Add(s, x)[..|s|] == s
  {
  }

  /** Adding a list adds exactly its elements. */
  lemma {:induction false} AddAllElems<T>(s: seq<T>, xs: seq<T>)
    ensures Elems(AddAll(s, xs)) == Elems(s) + Elems(xs)
    decreases |xs|
  {
    if xs != [] {
      AddSpec(s, xs[0]);
      AddAllElems(Add(s, xs[0]), xs[1..]);
      assert xs == [xs[0]] + xs[1..];
    }
  }

  /** Adding a list keeps the set duplicate-free. */
  lemma {:induction false} AddAllNoDup<T>(s: seq<T>, xs: seq<T>)
    requires NoDup(s)
    ensures NoDup(AddAll(s, xs))
    decreases |xs|
  {
    if xs != [] {
      AddSpec(s, xs[0]);
      AddAllNoDup(Add(s, xs[0]), xs[1..]);
    }
  }

  /** Adding a list only appends: the set grows and keeps its order. */
  lemma {:induction false} AddAllPrefix<T>(s: seq<T>, xs: seq<T>)
    ensures |s| <= |AddAll(s, xs)| && AddAll(s, xs)[..|s|] == s
    decreases |xs|
  {
    if xs != [] {
      var s' := Add(s, xs[0]);
      AddSpec(s, xs[0]);
      AddAllPrefix(s', xs[1..]);
      assert AddAll(s, xs)[..|s|] == AddAll(s', xs[1..])[..|s'|][..|s|];
    }
  }

  /** Adding elements that are all present already changes nothing. */
  lemma {:induction false} AddAllPresent<T>(s: seq<T>, xs: seq<T>)
    requires Elems(xs) <= Elems(s)
    ensures AddAll(s, xs) == s
    decreases |xs|
  {
    if xs != [] {
      assert xs[0] in Elems(xs);
      assert Elems(xs[1..]) <= Elems(xs) by {
        forall x | x in Elems(xs[1..]) ensures x in Elems(xs) {
          var k :| 0 <= k < |xs[1..]| && xs[1..][k] == x;
          assert xs[k + 1] == x;
        }
      }
      AddAllPresent(s, xs[1..]);
    }
  }

  /** Adding distinct new elements appends them in order. */
  lemma {:induction false} AddAllFresh<T>(s: seq<T>, xs: seq<T>)
    requires NoDup(s + xs)
    ensures AddAll(s, xs) == s + xs
    decreases |xs|
  {
    if xs != [] {
      assert xs[0] !in s by {
        assert (s + xs)[|s|] == xs[0];
        assert forall k :: 0 <= k < |s| ==> (s + xs)[k] == s[k];
      }
      assert s + xs == (s + [xs[0]]) + xs[1..];
      AddAllFresh(s + [xs[0]], xs[1..]);
    }
  }

  /** Adding a list with one more element at the end adds that element last. */
  lemma {:induction false} AddAllSnoc<T>(s: seq<T>, xs: seq<T>, x: T)
    ensures AddAll(s, xs + [x]) == Add(AddAll(s, xs), x)
    decreases |xs|
  {
    if xs == [] {
      assert [x][1..] == [];
    } else {
      assert (xs + [x])[1..] == xs[1..] + [x];
      AddAllSnoc(Add(s, xs[0]), xs[1..], x);
    }
  }

  /** Appending an element adds it to the elements. */
  lemma ElemsSnoc<T>(xs: seq<T>, x: T)
    ensures Elems(xs + [x]) == Elems(xs) + {x}
  {
    assert forall y :: y in xs + [x] <==> y in xs || y == x;
  }

  /** A permutation of a duplicate-free sequence is duplicate-free. */
  lemma NoDupPermutation<T>(s: seq<T>, t: seq<T>)
    requires NoDup(s)
    requires multiset(s) == multiset(t)
    ensures NoDup(t)
  {
    forall i, j | 0 <= i < j < |t| ensures t[i] != t[j] {
      if t[i] == t[j] {
        var x := t[i];
        assert multiset(t)[x] >= 2 by {
          assert t == t[..i] + [t[i]] + t[i + 1..];
          assert t[j] in t[i + 1..] by { assert t[i + 1..][j - i - 1] == t[j]; }
          assert multiset(t[i + 1..])[x] >= 1;
        }
        OccursOnce(s, x);
      }
    }
  }

  /** In a duplicate-free sequence every element occurs at most once. */
  lemma {:induction false} OccursOnce<T>(s: seq<T>, x: T)
    requires NoDup(s)
    ensures multiset(s)[x] <= 1
    decreases |s|
  {
    if s != [] {
      assert s == [s[0]] + s[1..];
      assert NoDup(s[1..]) by {
        forall i, j | 0 <= i < j < |s[1..]| ensures s[1..][i] != s[1..][j] {
          assert s[1..][i] == s[i + 1] && s[1..][j] == s[j + 1];
        }
      }
      OccursOnce(s[1..], x);
      if s[0] == x {
        assert x !in s[1..] by {
          assert forall k :: 0 <= k < |s[1..]| ==> s[1..][k] == s[k + 1];
        }
      }
    }
  }

  /** A prefix of a duplicate-free sequence is duplicate-free. */
  lemma NoDupPrefix<T>(s: seq<T>, n: nat)
    requires NoDup(s) && n <= |s|
    ensures NoDup(s[..n])
  {
  }

  /** A duplicate-free sequence has as many elements as its set. */
  lemma {:induction false} NoDupCard<T>(s: seq<T>)
    requires NoDup(s)
    ensures |Elems(s)| == |s|
    decreases |s|
  {
    if s != [] {
      var rest := s[1..];
      assert NoDup(rest) by {
        forall i, j | 0 <= i < j < |rest| ensures rest[i] != rest[j] {
          assert rest[i] == s[i + 1] && rest[j] == s[j + 1];
        }
      }
      NoDupCard(rest);
      assert s == [s[0]] + rest;
      assert s[0] !in rest by {
        assert forall k :: 0 <= k < |rest| ==> rest[k] == s[k + 1];
      }
      assert Elems(s) == Elems(rest) + {s[0]};
    }
  }

  /** A set has no more elements than a sequence that lists all of them. */
  lemma {:induction false} CardAtMost<T>(xs: set<T>, s: seq<T>)
    requires xs <= Elems(s)
    ensures |xs| <= |s|
    decreases |s|
  {
    if s != [] {
      var rest := s[1..];
      assert Elems(s) == Elems(rest) + {s[0]} by {
        assert s == [s[0]] + rest;
      }
      CardAtMost(xs - {s[0]}, rest);
    }
  }

  /** A duplicate-free sequence whose elements all occur in `t` is no longer than `t`. */
  lemma NoDupSubsetLength<T>(s: seq<T>, t: seq<T>)
    requires NoDup(s) && Elems(s) <= Elems(t)
    ensures |s| <= |t|
  {
    NoDupCard(s);
    CardAtMost(Elems(s), t);
  }
}
