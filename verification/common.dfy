/** Small shared vocabulary: optional values, results, ASCII case folding and
    the sequence operations (filtering, subsequences, first-occurrence
    de-duplication) that the pipeline stages are built from. */
module Common {

  /** A value that may be absent (Python's `None`, pandas' `NaN`). */
  datatype Option<T> = None | Some(value: T)

  /** The outcome of an operation that may raise. */
  datatype Result<T, E> = Ok(value: T) | Err(error: E)

  // ---------------------------------------------------------------------------
  // Case folding (ASCII subset of Python's `str.lower`)
  // ---------------------------------------------------------------------------

  function LowerChar(c: char): char
  {
    if 'A' <= c <= 'Z' then (c as int + 32) as char else c
  }

  function Lower(s: string): string
  {
    seq(|s|, i requires 0 <= i < |s| => LowerChar(s[i]))
  }

  /** A string without upper-case ASCII letters is its own lower case. */
  lemma LowerOfLowercase(s: string)
    requires forall i :: 0 <= i < |s| ==> !('A' <= s[i] <= 'Z')
    ensures Lower(s) == s
  {
  }

  lemma LowerAppend(a: string, b: string)
    ensures Lower(a + b) == Lower(a) + Lower(b)
  {
  }

  /** Python's `str.endswith`. */
  predicate EndsWith(s: string, suffix: string)
  {
    |suffix| <= |s| && s[|s| - |suffix|..] == suffix
  }

  // ---------------------------------------------------------------------------
  // Subsequences
  // ---------------------------------------------------------------------------

  /** `xs` is obtained from `ys` by deleting elements, keeping the order. */
  predicate IsSubseq<T(==)>(xs: seq<T>, ys: seq<T>)
    decreases |ys|
  {
    if xs == [] then true
    else if ys == [] then false
    else (xs[0] == ys[0] && IsSubseq(xs[1..], ys[1..])) || IsSubseq(xs, ys[1..])
  }

  lemma {:induction false} SubseqRefl<T>(xs: seq<T>)
    ensures IsSubseq(xs, xs)
    decreases |xs|
  {
    if xs != [] {
      SubseqRefl(xs[1..]);
    }
  }

  lemma {:induction false} SubseqTrans<T>(xs: seq<T>, ys: seq<T>, zs: seq<T>)
    requires IsSubseq(xs, ys) && IsSubseq(ys, zs)
    ensures IsSubseq(xs, zs)
    decreases |zs|
  {
    if xs == [] {
    } else if ys[0] == zs[0] && IsSubseq(ys[1..], zs[1..]) {
      if xs[0] == ys[0] && IsSubseq(xs[1..], ys[1..]) {
        SubseqTrans(xs[1..], ys[1..], zs[1..]);
      } else {
        SubseqTrans(xs, ys[1..], zs[1..]);
      }
    } else {
      SubseqTrans(xs, ys, zs[1..]);
    }
  }

  lemma {:induction false} SubseqMembers<T>(xs: seq<T>, ys: seq<T>)
    requires IsSubseq(xs, ys)
    ensures forall x :: x in xs ==> x in ys
    decreases |ys|
  {
    if xs != [] {
      if xs[0] == ys[0] && IsSubseq(xs[1..], ys[1..]) {
        SubseqMembers(xs[1..], ys[1..]);
        assert forall x :: x in xs ==> x == xs[0] || x in xs[1..];
      } else {
        SubseqMembers(xs, ys[1..]);
      }
    }
  }

  // ---------------------------------------------------------------------------
  // Filtering (pandas boolean-mask selection, Python list comprehensions)
  // ---------------------------------------------------------------------------

  /** The elements of `s` satisfying `p`, in their original order. */
  function Filter<T(!new)>(s: seq<T>, p: T -> bool): (r: seq<T>)
    ensures |r| <= |s|
    ensures forall x :: x in r <==> x in s && p(x)
  {
    if s == [] then []
    else
      assert forall x :: x in s <==> x == s[0] || x in s[1..];
      if p(s[0]) then [s[0]] + Filter(s[1..], p) else Filter(s[1..], p)
  }

  /** Each kept element occurs as often as in `s`; each dropped one not at
      all. */
  lemma {:induction false} FilterCount<T(!new)>(s: seq<T>, p: T -> bool)
    ensures forall x :: multiset(Filter(s, p))[x] == if p(x) then multiset(s)[x] else 0
    decreases |s|
  {
    if s != [] {
      FilterCount(s[1..], p);
      assert s == [s[0]] + s[1..];
      if p(s[0]) {
        assert Filter(s, p) == [s[0]] + Filter(s[1..], p);
      } else {
        assert Filter(s, p) == Filter(s[1..], p);
      }
    }
  }

  lemma {:induction false} FilterIsSubseq<T(!new)>(s: seq<T>, p: T -> bool)
    ensures IsSubseq(Filter(s, p), s)
    decreases |s|
  {
    if s != [] {
      FilterIsSubseq(s[1..], p);
      var rest := Filter(s[1..], p);
      if p(s[0]) {
        assert Filter(s, p) == [s[0]] + rest;
        assert (Filter(s, p))[1..] == rest;
      } else {
        assert Filter(s, p) == rest;
        if rest != [] {
          assert IsSubseq(rest, s[1..]);
        }
      }
    }
  }

  /** A filter that every element passes changes nothing. */
  lemma {:induction false} FilterKeepsAll<T(!new)>(s: seq<T>, p: T -> bool)
    requires forall x :: x in s ==> p(x)
    ensures Filter(s, p) == s
    decreases |s|
  {
    if s != [] {
      assert s[0] in s;
      assert forall x :: x in s[1..] ==> x in s;
      FilterKeepsAll(s[1..], p);
      assert s == [s[0]] + s[1..];
    }
  }

  // ---------------------------------------------------------------------------
  // First-occurrence de-duplication (pandas `drop_duplicates(keep="first")`)
  // ---------------------------------------------------------------------------

  /** `s[i]` is the first element of `s` with its key. */
  predicate FirstWithKey<T, K(==)>(s: seq<T>, key: T -> K, i: int)
    requires 0 <= i < |s|
  {
    forall j :: 0 <= j < i ==> key(s[j]) != key(s[i])
  }

  /** Keys of `s` are pairwise distinct. */
  predicate DistinctKeys<T, K(==)>(s: seq<T>, key: T -> K)
  {
    forall i, j :: 0 <= i < j < |s| ==> key(s[i]) != key(s[j])
  }

  /** Walk `s` left to right, keeping an element only when its key has not
      been seen yet; `seen` holds the keys already taken. */
  function DedupeFrom<T, K(==)>(s: seq<T>, key: T -> K, seen: set<K>): (r: seq<T>)
    ensures IsSubseq(r, s)
    ensures DistinctKeys(r, key)
    ensures forall i :: 0 <= i < |r| ==> key(r[i]) !in seen
    ensures forall x :: x in s && key(x) !in seen ==>
              exists k :: 0 <= k < |r| && key(r[k]) == key(x)
    decreases |s|
  {
    if s == [] then []
    else if key(s[0]) in seen then
      var r := DedupeFrom(s[1..], key, seen);
      assert IsSubseq(r, s) by {
        if r != [] { assert IsSubseq(r, s[1..]); }
      }
      assert forall x :: x in s ==> x == s[0] || x in s[1..];
      r
    else
      var rest := DedupeFrom(s[1..], key, seen + {key(s[0])});
      var r := [s[0]] + rest;
      assert r[1..] == rest;
      assert forall x :: x in s ==> x == s[0] || x in s[1..];
      assert forall x :: x in s && key(x) !in seen ==>
               exists k :: 0 <= k < |r| && key(r[k]) == key(x) by {
        forall x | x in s && key(x) !in seen
          ensures exists k :: 0 <= k < |r| && key(r[k]) == key(x)
        {
          if key(x) == key(s[0]) {
            assert key(r[0]) == key(x);
          } else {
            assert x in s[1..];
            var k :| 0 <= k < |rest| && key(rest[k]) == key(x);
            assert key(r[k + 1]) == key(x);
          }
        }
      }
      r
  }

  /** `s[i + 1]` is first with its key in `s` when it is first in `s[1..]`
      and its key differs from that of `s[0]`. */
  lemma FirstWithKeyTail<T, K>(s: seq<T>, key: T -> K, i: int)
    requires 0 <= i < |s| - 1
    requires FirstWithKey(s[1..], key, i)
    requires key(s[0]) != key(s[i + 1])
    ensures FirstWithKey(s, key, i + 1)
  {
    forall j | 0 <= j < i + 1
      ensures key(s[j]) != key(s[i + 1])
    {
      if j > 0 {
        assert s[j] == s[1..][j - 1];
      }
    }
  }

  /** De-duplication keeps exactly the first occurrence of each key: every
      kept element is the first one of `s` carrying its key. */
  lemma {:induction false} DedupeKeepsFirst<T, K>(s: seq<T>, key: T -> K, seen: set<K>)
    ensures forall k :: 0 <= k < |DedupeFrom(s, key, seen)| ==>
              exists i :: 0 <= i < |s| && s[i] == DedupeFrom(s, key, seen)[k]
                          && FirstWithKey(s, key, i)
    decreases |s|
  {
    var r := DedupeFrom(s, key, seen);
    if s != [] {
      if key(s[0]) in seen {
        assert r == DedupeFrom(s[1..], key, seen);
        DedupeKeepsFirst(s[1..], key, seen);
        forall k | 0 <= k < |r|
          ensures exists i :: 0 <= i < |s| && s[i] == r[k] && FirstWithKey(s, key, i)
        {
          var i :| 0 <= i < |s[1..]| && s[1..][i] == r[k] && FirstWithKey(s[1..], key, i);
          assert key(r[k]) !in seen;
          FirstWithKeyTail(s, key, i);
        }
        assert forall k :: 0 <= k < |r| ==>
          exists i :: 0 <= i < |s| && s[i] == r[k] && FirstWithKey(s, key, i);
      } else {
        var seen' := seen + {key(s[0])};
        var rest := DedupeFrom(s[1..], key, seen');
        DedupeKeepsFirst(s[1..], key, seen');
        assert r == [s[0]] + rest;
        forall k | 0 <= k < |r|
          ensures exists i :: 0 <= i < |s| && s[i] == r[k] && FirstWithKey(s, key, i)
        {
          if k == 0 {
            assert FirstWithKey(s, key, 0);
          } else {
            assert r[k] == rest[k - 1];
            var i :| 0 <= i < |s[1..]| && s[1..][i] == rest[k - 1] && FirstWithKey(s[1..], key, i);
            assert key(rest[k - 1]) !in seen';
            FirstWithKeyTail(s, key, i);
          }
        }
        assert forall k :: 0 <= k < |r| ==>
          exists i :: 0 <= i < |s| && s[i] == r[k] && FirstWithKey(s, key, i);
      }
    }
  }

  /** De-duplication keeps every first occurrence: the first element of
      `s` with each key is in the result. */
  lemma DedupeKeepsEveryFirst<T, K>(s: seq<T>, key: T -> K)
    ensures forall i :: 0 <= i < |s| && FirstWithKey(s, key, i) ==> s[i] in DedupeFrom(s, key, {})
  {
    var r := DedupeFrom(s, key, {});
    DedupeKeepsFirst(s, key, {});
    forall i | 0 <= i < |s| && FirstWithKey(s, key, i)
      ensures s[i] in r
    {
      assert s[i] in s;
      var k :| 0 <= k < |r| && key(r[k]) == key(s[i]);
      var j :| 0 <= j < |s| && s[j] == r[k] && FirstWithKey(s, key, j);
      assert !(j < i) && !(i < j);
    }
  }

  /** The elements of `s[..n]` that are first in `s` with their key, in
      order of position. */
  function FirstsUpTo<T, K(==)>(s: seq<T>, key: T -> K, n: nat): seq<T>
    requires n <= |s|
  {
    if n == 0 then []
    else FirstsUpTo(s, key, n - 1) + (if FirstWithKey(s, key, n - 1) then [s[n - 1]] else [])
  }

  /** The first element of each key, in order of position. */
  function FirstOccurrences<T, K(==)>(s: seq<T>, key: T -> K): seq<T>
  {
    FirstsUpTo(s, key, |s|)
  }

  /** Some element of `s` has key `k`. */
  predicate HasKey<T, K(==)>(s: seq<T>, key: T -> K, k: K)
  {
    exists j :: 0 <= j < |s| && key(s[j]) == k
  }

  lemma HasKeyCons<T, K>(s: seq<T>, key: T -> K, k: K)
    requires s != []
    ensures HasKey(s, key, k) <==> key(s[0]) == k || HasKey(s[1..], key, k)
  {
    if HasKey(s, key, k) {
      var j :| 0 <= j < |s| && key(s[j]) == k;
      if j > 0 {
        assert s[1..][j - 1] == s[j];
      }
    }
    if HasKey(s[1..], key, k) {
      var j :| 0 <= j < |s[1..]| && key(s[1..][j]) == k;
      assert s[j + 1] == s[1..][j];
    }
  }

  /** One step of the walk. */
  lemma DedupeStep<T, K>(s: seq<T>, key: T -> K, seen: set<K>)
    requires s != []
    ensures var k0 := key(s[0]);
            DedupeFrom(s, key, seen) ==
              (if k0 in seen then [] else [s[0]]) + DedupeFrom(s[1..], key, if k0 in seen then seen else seen + {k0})
  {
  }

  /** Appending an element extends the de-duplication by that element
      exactly when its key is new. */
  lemma {:induction false} DedupeSnoc<T, K>(s: seq<T>, x: T, key: T -> K, seen: set<K>)
    ensures DedupeFrom(s + [x], key, seen) ==
            DedupeFrom(s, key, seen) + (if key(x) in seen || HasKey(s, key, key(x)) then [] else [x])
    decreases |s|
  {
    if s == [] {
      assert [x][1..] == [];
      assert s + [x] == [x];
    } else {
      var k0 := key(s[0]);
      var sx := s + [x];
      assert sx[0] == s[0] && sx[1..] == s[1..] + [x];
      var seen' := if k0 in seen then seen else seen + {k0};
      var front := if k0 in seen then [] else [s[0]];
      DedupeStep(sx, key, seen);
      DedupeStep(s, key, seen);
      DedupeSnoc(s[1..], x, key, seen');
      HasKeyCons(s, key, key(x));
      var c' := if key(x) in seen' || HasKey(s[1..], key, key(x)) then [] else [x];
      ConcatAssoc(front, DedupeFrom(s[1..], key, seen'), c');
    }
  }

  lemma ConcatAssoc<T>(a: seq<T>, b: seq<T>, c: seq<T>)
    ensures a + (b + c) == (a + b) + c
  {
  }

  /** `s[m]` is first with its key exactly when no earlier element has it. */
  lemma FirstIffNewKey<T, K>(s: seq<T>, key: T -> K, m: int)
    requires 0 <= m < |s|
    ensures FirstWithKey(s, key, m) <==> !HasKey(s[..m], key, key(s[m]))
  {
    if HasKey(s[..m], key, key(s[m])) {
      var j :| 0 <= j < m && key(s[..m][j]) == key(s[m]);
      assert s[..m][j] == s[j];
    }
    if !FirstWithKey(s, key, m) {
      var j :| 0 <= j < m && key(s[j]) == key(s[m]);
      assert s[..m][j] == s[j];
    }
  }

  lemma {:induction false} DedupePrefix<T, K>(s: seq<T>, key: T -> K, n: nat)
    requires n <= |s|
    ensures DedupeFrom(s[..n], key, {}) == FirstsUpTo(s, key, n)
  {
    if n > 0 {
      var m := n - 1;
      var p := s[..m];
      assert s[..n] == p + [s[m]];
      DedupePrefix(s, key, m);
      FirstIffNewKey(s, key, m);
      DedupeSnoc(p, s[m], key, {});
    }
  }

  /** De-duplication keeps exactly the first element of each key, in order
      of position (`drop_duplicates(keep="first")`). */
  lemma DedupeIsFirstOccurrences<T, K>(s: seq<T>, key: T -> K)
    ensures DedupeFrom(s, key, {}) == FirstOccurrences(s, key)
  {
    DedupePrefix(s, key, |s|);
    assert s[..|s|] == s;
  }

  /** The tail of a sequence with distinct, unseen keys has distinct keys,
      unseen even once the head's key is added. */
  lemma DistinctTail<T, K>(s: seq<T>, key: T -> K, seen: set<K>)
    requires s != [] && DistinctKeys(s, key)
    requires forall i :: 0 <= i < |s| ==> key(s[i]) !in seen
    ensures DistinctKeys(s[1..], key)
    ensures forall i :: 0 <= i < |s[1..]| ==> key(s[1..][i]) !in seen + {key(s[0])}
  {
    var t := s[1..];
    forall i, j | 0 <= i < j < |t|
      ensures key(t[i]) != key(t[j])
    {
      assert t[i] == s[i + 1] && t[j] == s[j + 1];
    }
    forall i | 0 <= i < |t|
      ensures key(t[i]) !in seen + {key(s[0])}
    {
      assert t[i] == s[i + 1];
      assert key(s[0]) != key(s[i + 1]);
    }
  }

  /** A sequence whose keys are already distinct (and unseen) is unchanged. */
  lemma {:induction false} DedupeDistinct<T, K>(s: seq<T>, key: T -> K, seen: set<K>)
    requires DistinctKeys(s, key)
    requires forall i :: 0 <= i < |s| ==> key(s[i]) !in seen
    ensures DedupeFrom(s, key, seen) == s
    decreases |s|
  {
    if s != [] {
      assert key(s[0]) !in seen;
      DistinctTail(s, key, seen);
      DedupeDistinct(s[1..], key, seen + {key(s[0])});
      assert DedupeFrom(s, key, seen) == [s[0]] + DedupeFrom(s[1..], key, seen + {key(s[0])});
      assert s == [s[0]] + s[1..];
    }
  }
}
