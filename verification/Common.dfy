/** Result and option types, and sums over sequences, shared by every component. */
module Common {

  newtype byte = x: int | 0 <= x < 0x100

  datatype Option<+T> = None | Some(value: T)

  datatype Result<+T, +E> = Ok(value: T) | Err(error: E)

  function Min(a: int, b: int): int {
    if a <= b then a else b
  }

  ghost predicate Distinct<T>(s: seq<T>) {
    forall i, j :: 0 <= i < j < |s| ==> s[i] != s[j]
  }

  function Elements<T>(s: seq<T>): set<T> {
    set x | x in s
  }

  /** A non-empty set has a member. */
  lemma Member<T>(s: set<T>) returns (x: T)
    requires s != {}
    ensures x in s
  {
    x :| x in s;
  }

  lemma Inhabited<T>(s: set<T>)
    requires s != {}
    ensures exists x :: x in s
  {
    var x := Member(s);
  }

  lemma NothingTaken<T>(s: set<T>, gone: set<T>)
    ensures s * gone == {} <==> s - gone == s
  {
    if s * gone == {} {
      forall x | x in s ensures x !in gone {
        assert x !in s * gone;
      }
    } else {
      var x :| x in s * gone;
      assert x !in s - gone;
    }
  }

  lemma PutTwice<K, V>(m: map<K, V>, k: K, a: V, b: V)
    ensures m[k := a][k := b] == m[k := b]
  {
  }

  lemma PutSame<K, V>(m: map<K, V>, k: K)
    requires k in m
    ensures m[k := m[k]] == m
  {
  }

  lemma PutThenDrop<K, V>(m: map<K, V>, k: K, v: V)
    ensures m[k := v] - {k} == m - {k}
  {
  }

  /** The sum of the weights of the elements of a sequence. */
  function Tally<T>(s: seq<T>, weight: T -> nat): nat {
    if s == [] then 0 else Tally(s[..|s| - 1], weight) + weight(s[|s| - 1])
  }

  lemma TallyAppend<T>(s: seq<T>, x: T, weight: T -> nat)
    ensures Tally(s + [x], weight) == Tally(s, weight) + weight(x)
  {
    assert (s + [x])[..|s|] == s;
  }

  lemma {:induction false} TallyUpdate<T>(s: seq<T>, k: nat, x: T, weight: T -> nat)
    requires k < |s|
    ensures Tally(s[k := x], weight) + weight(s[k]) == Tally(s, weight) + weight(x)
  {
    var last := |s| - 1;
    if k == last {
      assert s[k := x][..last] == s[..last];
    } else {
      assert s[k := x][..last] == s[..last][k := x];
      TallyUpdate(s[..last], k, x, weight);
    }
  }

  /** A single element never weighs more than the whole. */
  lemma {:induction false} TallyAtLeast<T>(s: seq<T>, k: nat, weight: T -> nat)
    requires k < |s|
    ensures weight(s[k]) <= Tally(s, weight)
  {
    if k < |s| - 1 {
      TallyAtLeast(s[..|s| - 1], k, weight);
    }
  }

  /** A positive sum has a positive term. */
  lemma {:induction false} TallyPositive<T>(s: seq<T>, weight: T -> nat) returns (k: nat)
    requires Tally(s, weight) > 0
    ensures k < |s| && weight(s[k]) > 0
  {
    k := |s| - 1;
    if weight(s[k]) == 0 {
      k := TallyPositive(s[..|s| - 1], weight);
    }
  }

  lemma ElementsMore<T>(s: seq<T>, x: T)
    ensures Elements(s + [x]) == Elements(s) + {x}
  {
  }

  lemma DistinctMore<T>(s: seq<T>, x: T)
    requires Distinct(s + [x])
    ensures Distinct(s) && x !in Elements(s)
  {
    var all := s + [x];
    assert forall i | 0 <= i < |s| :: all[i] == s[i];
    forall i | 0 <= i < |s| ensures s[i] != x {
      assert all[i] != all[|s|];
    }
  }

  lemma {:induction false} DistinctCount<T>(s: seq<T>)
    requires Distinct(s)
    ensures |Elements(s)| == |s|
  {
    if s != [] {
      var rest, last := s[..|s| - 1], s[|s| - 1];
      assert s == rest + [last];
      DistinctMore(rest, last);
      DistinctCount(rest);
      ElementsMore(rest, last);
    }
  }

  lemma {:induction false} AtMostAsMany<T>(s: seq<T>)
    ensures |Elements(s)| <= |s|
  {
    if s != [] {
      AtMostAsMany(s[..|s| - 1]);
      ElementsMore(s[..|s| - 1], s[|s| - 1]);
      assert s == s[..|s| - 1] + [s[|s| - 1]];
    }
  }

  /** As many different elements as elements: none occurs twice. */
  lemma {:induction false} CountDistinct<T>(s: seq<T>)
    requires |Elements(s)| == |s|
    ensures Distinct(s)
  {
    if s != [] {
      var rest, last := s[..|s| - 1], s[|s| - 1];
      assert s == rest + [last];
      ElementsMore(rest, last);
      AtMostAsMany(rest);
      CountDistinct(rest);
      assert last !in Elements(rest);
    }
  }
}
