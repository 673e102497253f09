/** Operations on one chat's list of tracked user ids, as the bot performs them
    on a Python list: append-if-absent, and `list.remove`, which drops the
    FIRST occurrence of a value. */
module Tracking {

  /** No user id is tracked twice. */
  predicate NoDup(s: seq<int>) {
    forall i, j :: 0 <= i < j < |s| ==> s[i] != s[j]
  }

  /** The last id of a duplicate-free list is not in the rest of it. */
  lemma {:induction false} NoDupSnoc(s: seq<int>)
    requires NoDup(s) && s != []
    ensures NoDup(s[..|s| - 1]) && s[|s| - 1] !in s[..|s| - 1]
  {
    var t := s[..|s| - 1];
    forall i | 0 <= i < |t|
      ensures t[i] != s[|s| - 1]
    {
      assert t[i] == s[i];
    }
  }

  /** The elements of `s` as a set. */
  function Elements(s: seq<int>): set<int> {
    set y | y in s
  }

  /** `if x not in s: s.append(x)` */
  function Insert(s: seq<int>, x: int): (r: seq<int>)
    ensures x in r
    ensures forall y :: y in r <==> y in s || y == x
    ensures |r| == if x in s then |s| else |s| + 1
    ensures r[..|s|] == s
    ensures NoDup(s) ==> NoDup(r)
  {
    if x in s then s else s + [x]
  }

  /** Inserting the same id twice in a row is the same as inserting it once. */
  lemma {:induction false} InsertIdempotent(s: seq<int>, x: int)
    ensures Insert(Insert(s, x), x) == Insert(s, x)
  {
  }

  /** Insert each id of `ids`, in order. */
  function InsertAll(s: seq<int>, ids: seq<int>): seq<int>
  {
    if ids == [] then s else Insert(InsertAll(s, ids[..|ids| - 1]), ids[|ids| - 1])
  }

  /** Inserting a list of ids keeps the existing entries in place, keeps the
      list duplicate-free, and appends exactly the ids of `ids` that were not
      already tracked, each once. */
  lemma {:induction false} InsertAllSpec(s: seq<int>, ids: seq<int>)
    ensures var r := InsertAll(s, ids);
      && |r| >= |s|
      && r[..|s|] == s
      && (forall y :: y in r <==> y in s || y in ids)
      && (forall y :: y in r[|s|..] <==> y in ids && y !in s)
      && (NoDup(s) ==> NoDup(r))
      && NoDup(r[|s|..])
  {
    InsertAllKeeps(s, ids);
    InsertAllMembers(s, ids);
    InsertAllAppended(s, ids);
    if NoDup(s) {
      InsertAllNoDup(s, ids);
    }
  }

  lemma {:induction false} InsertAllKeeps(s: seq<int>, ids: seq<int>)
    ensures |InsertAll(s, ids)| >= |s| && InsertAll(s, ids)[..|s|] == s
  {
    if ids != [] {
      var p := InsertAll(s, ids[..|ids| - 1]);
      InsertAllKeeps(s, ids[..|ids| - 1]);
      assert InsertAll(s, ids)[..|p|] == p;
      assert InsertAll(s, ids)[..|s|] == p[..|s|];
    }
  }

  lemma {:induction false} InsertAllMembers(s: seq<int>, ids: seq<int>)
    ensures forall y :: y in InsertAll(s, ids) <==> y in s || y in ids
  {
    if ids != [] {
      var ids' := ids[..|ids| - 1];
      InsertAllMembers(s, ids');
      assert ids == ids' + [ids[|ids| - 1]];
    }
  }

  lemma {:induction false} InsertAllNoDup(s: seq<int>, ids: seq<int>)
    requires NoDup(s)
    ensures NoDup(InsertAll(s, ids))
  {
    if ids != [] {
      InsertAllNoDup(s, ids[..|ids| - 1]);
    }
  }

  lemma {:induction false} InsertAllAppended(s: seq<int>, ids: seq<int>)
    ensures |InsertAll(s, ids)| >= |s|
    ensures forall y :: y in InsertAll(s, ids)[|s|..] <==> y in ids && y !in s
    ensures NoDup(InsertAll(s, ids)[|s|..])
  {
    InsertAllKeeps(s, ids);
    if ids != [] {
      var ids' := ids[..|ids| - 1];
      var x := ids[|ids| - 1];
      InsertAllAppended(s, ids');
      InsertAllKeeps(s, ids');
      InsertAllMembers(s, ids');
      var p := InsertAll(s, ids');
      var t, tp := InsertAll(s, ids)[|s|..], p[|s|..];
      assert ids == ids' + [x];
      assert p == p[..|s|] + tp;
      if x in p {
        assert t == tp;
      } else {
        AppendFresh(s, p, x);
      }
    }
  }

  /** Appending an id the list does not hold extends its tail by that id. */
  lemma {:induction false} AppendFresh(s: seq<int>, p: seq<int>, x: int)
    requires |p| >= |s| && p[..|s|] == s && x !in p
    requires NoDup(p[|s|..])
    ensures (p + [x])[|s|..] == p[|s|..] + [x]
    ensures forall y :: y in (p + [x])[|s|..] <==> y in p[|s|..] || y == x
    ensures NoDup((p + [x])[|s|..])
  {
    var tp := p[|s|..];
    var t := (p + [x])[|s|..];
    assert t == tp + [x];
    assert p == p[..|s|] + tp;
    forall i, j | 0 <= i < j < |t|
      ensures t[i] != t[j]
    {
      if j == |tp| {
        assert tp[i] in p;
      }
    }
  }

  /** The number of elements of a duplicate-free list is the size of its set. */
  lemma {:induction false} NoDupCardinality(s: seq<int>)
    requires NoDup(s)
    ensures |Elements(s)| == |s|
  {
    if s != [] {
      var t := s[..|s| - 1];
      var x := s[|s| - 1];
      assert NoDup(t);
      NoDupCardinality(t);
      assert s == t + [x];
      assert x !in t by {
        forall k | 0 <= k < |t|
          ensures t[k] != x
        {
          assert t[k] == s[k];
        }
      }
      assert Elements(s) == Elements(t) + {x};
    }
  }

  /** The number of ids an insertion of `ids` appends is the number of
      distinct ids among them that were not tracked yet. */
  lemma {:induction false} AddedCount(s: seq<int>, ids: seq<int>)
    ensures |InsertAll(s, ids)| - |s| == |Elements(ids) - Elements(s)|
  {
    InsertAllSpec(s, ids);
    var r := InsertAll(s, ids);
    var t := r[|s|..];
    NoDupCardinality(t);
    assert Elements(t) == Elements(ids) - Elements(s);
  }

  /** `s.remove(x)` on a list that holds `x`. Python raises ValueError when
      `x` is absent; the unban loop never reaches that case (see
      `Unban.StillTracked`), and here the list is then returned as it is. */
  function RemoveFirst(s: seq<int>, x: int): (r: seq<int>)
    ensures x in s ==> |r| == |s| - 1
    ensures x !in s ==> r == s
  {
    if s == [] then []
    else if s[0] == x then s[1..]
    else [s[0]] + RemoveFirst(s[1..], x)
  }

  /** The removal takes exactly one copy of `x` away, and nothing else. */
  lemma {:induction false} RemoveFirstMultiset(s: seq<int>, x: int)
    ensures multiset(RemoveFirst(s, x)) == multiset(s) - multiset{x}
  {
    if s != [] {
      assert s == [s[0]] + s[1..];
      if s[0] != x {
        RemoveFirstMultiset(s[1..], x);
      }
    }
  }

  /** The removal hits the first index holding `x` and leaves the rest in order. */
  lemma {:induction false} RemoveFirstAt(s: seq<int>, x: int, i: nat)
    requires i < |s| && s[i] == x && x !in s[..i]
    ensures RemoveFirst(s, x) == s[..i] + s[i + 1..]
  {
    if i > 0 {
      assert s[1..][..i - 1] == s[1..i];
      assert x !in s[1..][..i - 1] by {
        assert forall y :: y in s[1..i] ==> y in s[..i];
      }
      RemoveFirstAt(s[1..], x, i - 1);
      assert s[..i] == [s[0]] + s[1..][..i - 1];
      assert s[1..][i..] == s[i + 1..];
    }
  }

  /** Removing a value that is absent from the front part only touches the back part. */
  lemma {:induction false} RemoveFirstAppend(a: seq<int>, b: seq<int>, x: int)
    requires x !in a
    ensures RemoveFirst(a + b, x) == a + RemoveFirst(b, x)
  {
    if a != [] {
      assert a + b == [a[0]] + (a[1..] + b);
      assert (a + b)[0] == a[0] && (a + b)[1..] == a[1..] + b;
      RemoveFirstAppend(a[1..], b, x);
    } else {
      assert a + b == b;
    }
  }

  /** Removing from a duplicate-free list keeps it duplicate-free. */
  lemma {:induction false} RemoveFirstNoDup(s: seq<int>, x: int)
    requires NoDup(s)
    ensures NoDup(RemoveFirst(s, x))
  {
    if x in s {
      var i :| 0 <= i < |s| && s[i] == x;
      assert x !in s[..i] by {
        forall k | 0 <= k < i
          ensures s[..i][k] != x
        {
          assert s[..i][k] == s[k];
        }
      }
      RemoveFirstAt(s, x, i);
      var r := s[..i] + s[i + 1..];
      forall a, b | 0 <= a < b < |r|
        ensures r[a] != r[b]
      {
        var a' := if a < i then a else a + 1;
        var b' := if b < i then b else b + 1;
        assert r[a] == s[a'] && r[b] == s[b'];
      }
    }
  }

  /** `s.remove(x)` for each `x` of `xs`, in order. */
  function RemoveEach(s: seq<int>, xs: seq<int>): seq<int>
  {
    if xs == [] then s else RemoveFirst(RemoveEach(s, xs[..|xs| - 1]), xs[|xs| - 1])
  }

  /** When every removed value is there to be removed, what is left is the
      original multiset minus the removed values. */
  lemma {:induction false} RemoveEachMultiset(s: seq<int>, xs: seq<int>)
    requires multiset(xs) <= multiset(s)
    ensures multiset(RemoveEach(s, xs)) == multiset(s) - multiset(xs)
  {
    if xs != [] {
      var xs' := xs[..|xs| - 1];
      var x := xs[|xs| - 1];
      assert xs == xs' + [x];
      assert multiset(xs) == multiset(xs') + multiset{x};
      RemoveEachMultiset(s, xs');
      var p := RemoveEach(s, xs');
      RemoveFirstMultiset(p, x);
    }
  }

  /** Removals keep a duplicate-free list duplicate-free. */
  lemma {:induction false} RemoveEachNoDup(s: seq<int>, xs: seq<int>)
    requires NoDup(s)
    ensures NoDup(RemoveEach(s, xs))
  {
    if xs != [] {
      RemoveEachNoDup(s, xs[..|xs| - 1]);
      RemoveFirstNoDup(RemoveEach(s, xs[..|xs| - 1]), xs[|xs| - 1]);
    }
  }
}
