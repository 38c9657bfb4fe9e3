/**
 * The "filter with a seen set" loop that the scraper writes twice (for the
 * addresses of a text and for the final records), and that `dict.fromkeys`
 * performs for the addresses of a Pulaski page: walk a sequence left to right and keep an element when it is acceptable
 * and no element with the same key has been kept before.
 */
module FirstOccurrence {
  import opened Comprehensions

  /** The identity, used as the key when duplicates are exact duplicates. */
  function Same<T>(x: T): T { x }

  /** Accepts everything. */
  predicate Always<T>(x: T) { true }

  /** The keys of the elements of `r` (the scraper's `seen` set). */
  function KeysOf<T, K>(r: seq<T>, key: T -> K): set<K>
  {
    if r == [] then {} else KeysOf(r[..|r| - 1], key) + {key(r[|r| - 1])}
  }

  /** The kept elements after walking all of `s`. */
  function KeepFirst<T, K(==)>(s: seq<T>, key: T -> K, keep: T -> bool): seq<T>
  {
    if s == [] then []
    else
      var kept := KeepFirst(s[..|s| - 1], key, keep);
      var x := s[|s| - 1];
      if keep(x) && key(x) !in KeysOf(kept, key) then kept + [x] else kept
  }

  /** One step of the walk: the next element is appended exactly when it is acceptable and its key is unseen. */
  lemma KeepFirstStep<T, K>(s: seq<T>, x: T, key: T -> K, keep: T -> bool)
    ensures var kept := KeepFirst(s, key, keep);
            KeepFirst(s + [x], key, keep) ==
              if keep(x) && key(x) !in KeysOf(kept, key) then kept + [x] else kept
  {
    assert (s + [x])[..|s|] == s;
  }

  /** `KeepFirstStep` for the walk over a prefix of `s`, one position further. */
  lemma KeepFirstPrefixStep<T, K>(s: seq<T>, key: T -> K, keep: T -> bool, i: nat)
    requires i < |s|
    ensures var kept := KeepFirst(s[..i], key, keep);
            KeepFirst(s[..i + 1], key, keep) ==
              if keep(s[i]) && key(s[i]) !in KeysOf(kept, key) then kept + [s[i]] else kept
  {
    assert s[..i + 1] == s[..i] + [s[i]];
    KeepFirstStep(s[..i], s[i], key, keep);
  }

  /** The keys of a list with one more element. */
  lemma KeysOfSnoc<T, K>(r: seq<T>, x: T, key: T -> K)
    ensures KeysOf(r + [x], key) == KeysOf(r, key) + {key(x)}
  {
    assert (r + [x])[..|r|] == r;
  }

  /** `KeepFirstStep` for exact duplicates: the `seen` set is the kept list itself. */
  lemma KeepFirstStepSame<T>(s: seq<T>, x: T, keep: T -> bool)
    ensures var kept := KeepFirst(s, Same, keep);
            KeepFirst(s + [x], Same, keep) == if keep(x) && x !in kept then kept + [x] else kept
  {
    var kept := KeepFirst(s, Same, keep);
    KeepFirstStep(s, x, Same, keep);
    KeysOfSame(kept, x);
  }

  /** With the identity as key, a key is seen exactly when the element is in the list. */
  lemma {:induction false} KeysOfSame<T>(r: seq<T>, x: T)
    ensures x in KeysOf(r, Same) <==> x in r
  {
    if r != [] {
      KeysOfSame(r[..|r| - 1], x);
      assert r == r[..|r| - 1] + [r[|r| - 1]];
    }
  }

  /** For exact duplicates, every acceptable input element is in the output. */
  lemma KeepFirstCoversSame<T>(s: seq<T>, keep: T -> bool, j: nat)
    requires j < |s| && keep(s[j])
    ensures s[j] in KeepFirst(s, Same, keep)
  {
    KeepFirstSeen(s, Same, keep, s[j]);
    KeysOfSame(KeepFirst(s, Same, keep), s[j]);
  }

  /** The walk never produces more elements than it reads. */
  lemma {:induction false} KeepFirstLength<T, K>(s: seq<T>, key: T -> K, keep: T -> bool)
    ensures |KeepFirst(s, key, keep)| <= |s|
  {
    if s != [] {
      KeepFirstLength(s[..|s| - 1], key, keep);
    }
  }

  /** Order-preserving exact deduplication, as `dict.fromkeys(s)` iterates. */
  function Distinct<T(==)>(s: seq<T>): (r: seq<T>)
    ensures |r| <= |s|
  {
    KeepFirstLength(s, Same, Always);
    KeepFirst(s, Same, Always)
  }

  /** Position `i` holds an acceptable element whose key no earlier acceptable element has. */
  ghost predicate IsFirst<T, K>(s: seq<T>, key: T -> K, keep: T -> bool, i: int)
  {
    0 <= i < |s| && keep(s[i]) &&
    forall j :: 0 <= j < i && keep(s[j]) ==> key(s[j]) != key(s[i])
  }

  /** The positions below `n` that hold the first acceptable element of their key, in increasing order. */
  ghost function FirstPositions<T, K>(s: seq<T>, key: T -> K, keep: T -> bool, n: nat): (p: seq<nat>)
    requires n <= |s|
    ensures forall i :: 0 <= i < |p| ==> p[i] < n
    ensures forall i, j :: 0 <= i < j < |p| ==> p[i] < p[j]
    ensures forall k :: 0 <= k < n ==> (k in p <==> IsFirst(s, key, keep, k))
  {
    if n == 0 then []
    else FirstPositions(s, key, keep, n - 1) + (if IsFirst(s, key, keep, n - 1) then [n - 1] else [])
  }

  lemma {:induction false} KeysOfMembership<T, K>(r: seq<T>, key: T -> K, k: K)
    ensures k in KeysOf(r, key) <==> exists i :: 0 <= i < |r| && key(r[i]) == k
  {
    if r != [] {
      var p := r[..|r| - 1];
      KeysOfMembership(p, key, k);
      if k in KeysOf(p, key) {
        var i :| 0 <= i < |p| && key(p[i]) == k;
        assert r[i] == p[i];
      }
      if exists i :: 0 <= i < |r| && key(r[i]) == k {
        var i :| 0 <= i < |r| && key(r[i]) == k;
        if i < |p| {
          assert p[i] == r[i];
        }
      }
    }
  }

  /** An acceptable element of `s` carries `k` exactly when one of its prefix without the last element does, or the last element does. */
  lemma AcceptableSnoc<T, K>(s: seq<T>, key: T -> K, keep: T -> bool, k: K)
    requires s != []
    ensures var p := s[..|s| - 1];
            var x := s[|s| - 1];
            (exists j :: 0 <= j < |s| && keep(s[j]) && key(s[j]) == k) <==>
            (exists j :: 0 <= j < |p| && keep(p[j]) && key(p[j]) == k) || (keep(x) && key(x) == k)
  {
    var p := s[..|s| - 1];
    if exists j :: 0 <= j < |p| && keep(p[j]) && key(p[j]) == k {
      var j :| 0 <= j < |p| && keep(p[j]) && key(p[j]) == k;
      assert s[j] == p[j];
    }
    if exists j :: 0 <= j < |s| && keep(s[j]) && key(s[j]) == k {
      var j :| 0 <= j < |s| && keep(s[j]) && key(s[j]) == k;
      if j < |p| {
        assert p[j] == s[j];
      }
    }
  }

  /** One step of the walk adds the key of the last element to the seen keys exactly when that element is acceptable. */
  lemma KeysOfKeepFirstSnoc<T, K>(s: seq<T>, key: T -> K, keep: T -> bool, k: K)
    requires s != []
    ensures var p := s[..|s| - 1];
            var x := s[|s| - 1];
            k in KeysOf(KeepFirst(s, key, keep), key) <==>
            k in KeysOf(KeepFirst(p, key, keep), key) || (keep(x) && key(x) == k)
  {
    var p := s[..|s| - 1];
    var x := s[|s| - 1];
    var kept := KeepFirst(p, key, keep);
    assert KeepFirst(s, key, keep) == if keep(x) && key(x) !in KeysOf(kept, key) then kept + [x] else kept;
    KeysOfSnoc(kept, x, key);
  }

  /** A key has been seen exactly when some acceptable element of the input carries it. */
  lemma {:induction false} KeepFirstSeen<T, K>(s: seq<T>, key: T -> K, keep: T -> bool, k: K)
    ensures k in KeysOf(KeepFirst(s, key, keep), key) <==>
            exists j :: 0 <= j < |s| && keep(s[j]) && key(s[j]) == k
  {
    if s != [] {
      KeepFirstSeen(s[..|s| - 1], key, keep, k);
      KeysOfKeepFirstSnoc(s, key, keep, k);
      AcceptableSnoc(s, key, keep, k);
    }
  }


  /**
   * The seen-set walk keeps exactly the elements at the first positions of
   * their keys, in input order: output element `i` is input element `p[i]`.
   */
  lemma {:induction false} KeepFirstSelectsFirstPositions<T, K>(s: seq<T>, key: T -> K, keep: T -> bool)
    ensures var r := KeepFirst(s, key, keep);
            var p := FirstPositions(s, key, keep, |s|);
            |r| == |p| && forall i :: 0 <= i < |p| ==> r[i] == s[p[i]]
  {
    PrefixSelects(s, key, keep, |s|);
    assert s[..|s|] == s;
  }

  /** Walking one more element of `s` appends it exactly when its position is a first position. */
  lemma PrefixStep<T, K>(s: seq<T>, key: T -> K, keep: T -> bool, n: nat)
    requires 0 < n <= |s|
    ensures KeepFirst(s[..n], key, keep) ==
            KeepFirst(s[..n - 1], key, keep) + (if IsFirst(s, key, keep, n - 1) then [s[n - 1]] else [])
  {
    var init := s[..n - 1];
    var x := s[n - 1];
    assert s[..n] == init + [x];
    KeepFirstStep(init, x, key, keep);
    KeepFirstSeen(init, key, keep, key(x));
    if keep(x) && !IsFirst(s, key, keep, n - 1) {
      var j :| 0 <= j < n - 1 && keep(s[j]) && key(s[j]) == key(x);
      assert init[j] == s[j];
    }
    if IsFirst(s, key, keep, n - 1) {
      forall j | 0 <= j < |init| && keep(init[j]) ensures key(init[j]) != key(x) {
        assert init[j] == s[j];
      }
    }
  }

  lemma {:induction false} PrefixSelects<T, K>(s: seq<T>, key: T -> K, keep: T -> bool, n: nat)
    requires n <= |s|
    ensures var r := KeepFirst(s[..n], key, keep);
            var p := FirstPositions(s, key, keep, n);
            |r| == |p| && forall i :: 0 <= i < |p| ==> r[i] == s[p[i]]
  {
    if n > 0 {
      PrefixSelects(s, key, keep, n - 1);
      PrefixStep(s, key, keep, n);
    }
  }

  /** Every kept element is acceptable. */
  lemma {:induction false} KeepFirstAccepts<T, K>(s: seq<T>, key: T -> K, keep: T -> bool)
    ensures forall i :: 0 <= i < |KeepFirst(s, key, keep)| ==> keep(KeepFirst(s, key, keep)[i])
  {
    var p := FirstPositions(s, key, keep, |s|);
    KeepFirstSelectsFirstPositions(s, key, keep);
    forall i | 0 <= i < |p| ensures IsFirst(s, key, keep, p[i]) {
      assert p[i] in p;
    }
  }

  /** No two kept elements share a key. */
  lemma {:induction false} KeepFirstDistinctKeys<T, K>(s: seq<T>, key: T -> K, keep: T -> bool)
    ensures var r := KeepFirst(s, key, keep);
            forall i, j :: 0 <= i < j < |r| ==> key(r[i]) != key(r[j])
  {
    var r := KeepFirst(s, key, keep);
    var p := FirstPositions(s, key, keep, |s|);
    KeepFirstSelectsFirstPositions(s, key, keep);
    forall i, j | 0 <= i < j < |r| ensures key(r[i]) != key(r[j]) {
      assert p[i] < p[j] && p[i] in p && p[j] in p;
      assert IsFirst(s, key, keep, p[i]) && IsFirst(s, key, keep, p[j]);
    }
  }

  /** Two given kept elements have different keys. */
  lemma KeepFirstDistinctAt<T, K>(s: seq<T>, key: T -> K, keep: T -> bool, i: nat, j: nat)
    requires i < j < |KeepFirst(s, key, keep)|
    ensures key(KeepFirst(s, key, keep)[i]) != key(KeepFirst(s, key, keep)[j])
  {
    KeepFirstDistinctKeys(s, key, keep);
  }

  /** The first acceptable element of every key is kept: an earlier one always wins over a later one. */
  lemma {:induction false} KeepFirstKeepsFirsts<T, K>(s: seq<T>, key: T -> K, keep: T -> bool, k: nat)
    requires IsFirst(s, key, keep, k)
    ensures s[k] in KeepFirst(s, key, keep)
  {
    var p := FirstPositions(s, key, keep, |s|);
    KeepFirstSelectsFirstPositions(s, key, keep);
    var i :| 0 <= i < |p| && p[i] == k;
    assert KeepFirst(s, key, keep)[i] == s[k];
  }

  /** Every kept element sits at the first position of its key in the input. */
  lemma {:induction false} KeepFirstOnlyFirsts<T, K>(s: seq<T>, key: T -> K, keep: T -> bool, i: nat)
    requires i < |KeepFirst(s, key, keep)|
    ensures exists k :: IsFirst(s, key, keep, k) && KeepFirst(s, key, keep)[i] == s[k]
  {
    var p := FirstPositions(s, key, keep, |s|);
    KeepFirstSelectsFirstPositions(s, key, keep);
    assert p[i] in p;
    assert IsFirst(s, key, keep, p[i]);
  }

  /** Every acceptable input element is represented in the output by an element with its key. */
  lemma {:induction false} KeepFirstCovers<T, K>(s: seq<T>, key: T -> K, keep: T -> bool, j: nat)
    requires j < |s| && keep(s[j])
    ensures exists i :: 0 <= i < |KeepFirst(s, key, keep)| && key(KeepFirst(s, key, keep)[i]) == key(s[j])
  {
    KeepFirstSeen(s, key, keep, key(s[j]));
    KeysOfMembership(KeepFirst(s, key, keep), key, key(s[j]));
  }

  /** Walking `s + t` first produces the walk of `s` unchanged. */
  lemma {:induction false} KeepFirstExtends<T, K>(s: seq<T>, t: seq<T>, key: T -> K, keep: T -> bool)
    ensures var a := KeepFirst(s, key, keep);
            var r := KeepFirst(s + t, key, keep);
            |a| <= |r| && r[..|a|] == a
  {
    if t == [] {
      assert s + t == s;
    } else {
      var t' := t[..|t| - 1];
      var x := t[|t| - 1];
      KeepFirstExtends(s, t', key, keep);
      var a := KeepFirst(s, key, keep);
      var prev := KeepFirst(s + t', key, keep);
      assert s + t == (s + t') + [x];
      KeepFirstStep(s + t', x, key, keep);
      assert (prev + [x])[..|a|] == prev[..|a|];
    }
  }

  /** One more element of `t` in the walk of `s + t`. */
  lemma KeepFirstAppendStep<T, K>(s: seq<T>, t: seq<T>, key: T -> K, keep: T -> bool)
    requires t != []
    ensures var prev := KeepFirst(s + t[..|t| - 1], key, keep);
            var x := t[|t| - 1];
            KeepFirst(s + t, key, keep) ==
              if keep(x) && key(x) !in KeysOf(prev, key) then prev + [x] else prev
  {
    assert s + t == (s + t[..|t| - 1]) + [t[|t| - 1]];
  }

  /** A key unseen after walking `s + u` was unseen after walking `s`. */
  lemma KeepFirstUnseen<T, K>(s: seq<T>, u: seq<T>, key: T -> K, keep: T -> bool, k: K)
    requires k !in KeysOf(KeepFirst(s + u, key, keep), key)
    ensures k !in KeysOf(KeepFirst(s, key, keep), key)
  {
    var a := KeepFirst(s, key, keep);
    var prev := KeepFirst(s + u, key, keep);
    KeepFirstExtends(s, u, key, keep);
    KeysOfPrefix(prev, key, |a|);
    assert prev[..|a|] == a;
  }

  /** Element `i` of the walk of `s + t`, past the walk of `s`, comes from `t` and carries a key not seen in `s`. */
  lemma {:induction false} KeepFirstAppendTailAt<T, K>(s: seq<T>, t: seq<T>, key: T -> K, keep: T -> bool, i: nat)
    requires |KeepFirst(s, key, keep)| <= i < |KeepFirst(s + t, key, keep)|
    ensures KeepFirst(s + t, key, keep)[i] in t
    ensures key(KeepFirst(s + t, key, keep)[i]) !in KeysOf(KeepFirst(s, key, keep), key)
    decreases |t|
  {
    assert s + [] == s;
    assert t != [];
    var t' := t[..|t| - 1];
    var x := t[|t| - 1];
    var prev := KeepFirst(s + t', key, keep);
    var r := KeepFirst(s + t, key, keep);
    KeepFirstAppendStep(s, t, key, keep);
    if i < |prev| {
      KeepFirstAppendTailAt(s, t', key, keep, i);
      assert r[i] == prev[i] && prev[i] in t';
      var j :| 0 <= j < |t'| && t'[j] == r[i];
      assert t[j] == r[i];
    } else {
      assert r == prev + [x] && r[i] == x;
      KeepFirstUnseen(s, t', key, keep, key(x));
    }
  }

  /** Whatever the walk of `s + t` adds after the walk of `s` comes from `t` and carries a key not seen in `s`. */
  lemma KeepFirstAppendTail<T, K>(s: seq<T>, t: seq<T>, key: T -> K, keep: T -> bool)
    ensures var a := KeepFirst(s, key, keep);
            var r := KeepFirst(s + t, key, keep);
            forall i :: |a| <= i < |r| ==> r[i] in t && key(r[i]) !in KeysOf(a, key)
  {
    var a := KeepFirst(s, key, keep);
    var r := KeepFirst(s + t, key, keep);
    forall i | |a| <= i < |r| ensures r[i] in t && key(r[i]) !in KeysOf(a, key) {
      KeepFirstAppendTailAt(s, t, key, keep, i);
    }
  }

  /**
   * Walking `s + t` first produces the walk of `s` unchanged; whatever follows
   * comes from `t` and carries a key not seen in `s`.
   */
  lemma KeepFirstAppend<T, K>(s: seq<T>, t: seq<T>, key: T -> K, keep: T -> bool)
    ensures var a := KeepFirst(s, key, keep);
            var r := KeepFirst(s + t, key, keep);
            |a| <= |r| && r[..|a|] == a &&
            forall i :: |a| <= i < |r| ==> r[i] in t && key(r[i]) !in KeysOf(a, key)
  {
    KeepFirstExtends(s, t, key, keep);
    KeepFirstAppendTail(s, t, key, keep);
  }

  /** The keys of a prefix are keys of the whole list. */
  lemma {:induction false} KeysOfPrefix<T, K>(r: seq<T>, key: T -> K, n: nat)
    requires n <= |r|
    ensures KeysOf(r[..n], key) <= KeysOf(r, key)
    decreases |r|
  {
    if n < |r| {
      var init := r[..|r| - 1];
      assert init[..n] == r[..n];
      KeysOfPrefix(init, key, n);
    } else {
      assert r[..n] == r;
    }
  }

  /**
   * Exact deduplication: each element of the input appears exactly once, and
   * the elements come in the order of their first occurrences.
   */
  lemma DistinctProperties<T>(s: seq<T>)
    ensures var d := Distinct(s);
            (forall i, j :: 0 <= i < j < |d| ==> d[i] != d[j]) &&
            (forall x :: x in s <==> x in d)
    ensures var d := Distinct(s);
            var p := FirstPositions(s, Same, Always, |s|);
            |d| == |p| && forall i :: 0 <= i < |p| ==> d[i] == s[p[i]]
  {
    var d := Distinct(s);
    var same: T -> T := Same;
    assert d == KeepFirst(s, same, Always);
    KeepFirstSelectsFirstPositions(s, same, Always);
    forall i, j | 0 <= i < j < |d| ensures d[i] != d[j] {
      KeepFirstDistinctAt(s, same, Always, i, j);
      assert same(d[i]) == d[i] && same(d[j]) == d[j];
    }
    forall x | x in s ensures x in d {
      var j :| 0 <= j < |s| && s[j] == x;
      KeepFirstCovers(s, Same, Always, j);
    }
    forall x | x in d ensures x in s {
      var i :| 0 <= i < |d| && d[i] == x;
      KeepFirstOnlyFirsts(s, Same, Always, i);
    }
  }

  /** Filtering by a test that keys decide keeps, of a list's keys, exactly those with that test. */
  lemma KeysOfFilter<T, K>(r: seq<T>, key: T -> K, p: T -> bool, x: T)
    requires forall a, b :: key(a) == key(b) ==> p(a) == p(b)
    requires p(x)
    ensures key(x) in KeysOf(r, key) <==> key(x) in KeysOf(Filter(r, p), key)
  {
    var f := Filter(r, p);
    KeysOfMembership(r, key, key(x));
    KeysOfMembership(f, key, key(x));
    if key(x) in KeysOf(r, key) {
      var i :| 0 <= i < |r| && key(r[i]) == key(x);
      assert p(r[i]);
      assert r[i] in f;
      var j :| 0 <= j < |f| && f[j] == r[i];
    }
    if key(x) in KeysOf(f, key) {
      var j :| 0 <= j < |f| && key(f[j]) == key(x);
      assert f[j] in r;
      var i :| 0 <= i < |r| && r[i] == f[j];
    }
  }


  /**
   * When elements with equal keys agree on `p`, keeping the first of each key
   * and then filtering by `p` is the same as filtering first: the groups `p`
   * separates are deduplicated independently of each other.
   */
  lemma {:induction false} KeepFirstFilter<T, K>(s: seq<T>, key: T -> K, keep: T -> bool, p: T -> bool)
    requires forall a, b :: key(a) == key(b) ==> p(a) == p(b)
    ensures Filter(KeepFirst(s, key, keep), p) == KeepFirst(Filter(s, p), key, keep)
  {
    if s != [] {
      var init := s[..|s| - 1];
      var x := s[|s| - 1];
      KeepFirstFilter(init, key, keep, p);
      var kept := KeepFirst(init, key, keep);
      var fkept := KeepFirst(Filter(init, p), key, keep);
      assert Filter(kept, p) == fkept;
      assert s == init + [x];
      FilterSnoc(init, x, p);
      KeepFirstStep(init, x, key, keep);
      var taken := keep(x) && key(x) !in KeysOf(kept, key);
      assert KeepFirst(s, key, keep) == if taken then kept + [x] else kept;
      if p(x) {
        KeysOfFilter(kept, key, p, x);
        assert Filter(s, p) == Filter(init, p) + [x];
        KeepFirstStep(Filter(init, p), x, key, keep);
        assert KeepFirst(Filter(s, p), key, keep) == if taken then fkept + [x] else fkept;
        if taken {
          FilterSnoc(kept, x, p);
        }
      } else {
        assert Filter(s, p) == Filter(init, p);
        if taken {
          FilterSnoc(kept, x, p);
        }
      }
    }
  }
}
