/** Delivery marks attached to a script segment and the ordering the
    parser puts them in: a stable sort, ascending by position. */
module Marks {
  import opened Wrappers

  /** The mark types of the exported script.  The parser never produces
      `LongPause`; it belongs to the document's vocabulary only. */
  datatype MarkKind = Emphasis | ShortPause | LongPause | Rise | Fall

  /** `{type, position, text?}`; only emphasis marks carry a text. */
  datatype Mark = Mark(kind: MarkKind, position: int, text: Option<string>)

  predicate SortedByPosition(ms: seq<Mark>) {
    forall i, j :: 0 <= i < j < |ms| ==> ms[i].position <= ms[j].position
  }

  /** Inserts `m` into a sorted list after every mark whose position is
      not greater than its own. */
  function Insert(m: Mark, ys: seq<Mark>): (r: seq<Mark>)
    ensures |r| == |ys| + 1
    ensures multiset(r) == multiset(ys) + multiset{m}
  {
    if ys == [] then [m]
    else if ys[|ys| - 1].position <= m.position then ys + [m]
    else
      assert ys == ys[..|ys| - 1] + [ys[|ys| - 1]];
      Insert(m, ys[..|ys| - 1]) + [ys[|ys| - 1]]
  }

  lemma {:induction false} InsertSorted(m: Mark, ys: seq<Mark>)
    requires SortedByPosition(ys)
    ensures SortedByPosition(Insert(m, ys))
    decreases |ys|
  {
    if ys != [] && ys[|ys| - 1].position > m.position {
      var last := ys[|ys| - 1];
      var front := ys[..|ys| - 1];
      var r := Insert(m, front);
      InsertSorted(m, front);
      forall i | 0 <= i < |r| ensures r[i].position <= last.position {
        assert r[i] in multiset(r);
        assert r[i] in multiset(front) + multiset{m};
        if r[i] != m {
          var j :| 0 <= j < |front| && front[j] == r[i];
          assert ys[j] == front[j];
        }
      }
      assert Insert(m, ys) == r + [last];
    }
  }

  /** `marks.sort((a, b) => a.position - b.position)`: JavaScript's sort is
      stable, so this is an insertion sort that keeps ties in their
      original order. */
  function SortByPosition(ms: seq<Mark>): (r: seq<Mark>)
    ensures SortedByPosition(r)
    ensures multiset(r) == multiset(ms)
  {
    if ms == [] then []
    else
      assert ms == ms[..|ms| - 1] + [ms[|ms| - 1]];
      InsertSorted(ms[|ms| - 1], SortByPosition(ms[..|ms| - 1]));
      Insert(ms[|ms| - 1], SortByPosition(ms[..|ms| - 1]))
  }

  /** The marks at position `p`, in order. */
  function AtPosition(ms: seq<Mark>, p: int): seq<Mark>
  {
    if ms == [] then []
    else AtPosition(ms[..|ms| - 1], p) + (if ms[|ms| - 1].position == p then [ms[|ms| - 1]] else [])
  }

  lemma {:induction false} AtPositionAppend(a: seq<Mark>, b: seq<Mark>, p: int)
    ensures AtPosition(a + b, p) == AtPosition(a, p) + AtPosition(b, p)
    decreases |b|
  {
    if b == [] {
      assert a + b == a;
    } else {
      var b' := b[..|b| - 1];
      assert (a + b)[..|a + b| - 1] == a + b';
      AtPositionAppend(a, b', p);
    }
  }

  lemma {:induction false} InsertStable(m: Mark, ys: seq<Mark>, p: int)
    ensures AtPosition(Insert(m, ys), p) == AtPosition(ys, p) + AtPosition([m], p)
    decreases |ys|
  {
    assert [m][..0] == [];
    if ys == [] {
      assert Insert(m, ys) == [m];
      assert AtPosition(ys, p) == [];
    } else if ys[|ys| - 1].position <= m.position {
      assert Insert(m, ys) == ys + [m];
      AtPositionAppend(ys, [m], p);
    } else {
      InsertStable(m, ys[..|ys| - 1], p);
      InsertStableBack(m, ys, p);
    }
  }

  lemma InsertStableBack(m: Mark, ys: seq<Mark>, p: int)
    requires ys != [] && ys[|ys| - 1].position > m.position
    requires AtPosition(Insert(m, ys[..|ys| - 1]), p) == AtPosition(ys[..|ys| - 1], p) + AtPosition([m], p)
    ensures AtPosition(Insert(m, ys), p) == AtPosition(ys, p) + AtPosition([m], p)
  {
    var last := ys[|ys| - 1];
    var front := ys[..|ys| - 1];
    InsertBackSplit(m, ys, p);
    AtPositionLast(ys, p);
    SwapDisjoint(AtPosition(front, p), AtPosition([m], p), AtPosition([last], p));
  }

  lemma InsertBackSplit(m: Mark, ys: seq<Mark>, p: int)
    requires ys != [] && ys[|ys| - 1].position > m.position
    ensures AtPosition(Insert(m, ys), p) == AtPosition(Insert(m, ys[..|ys| - 1]), p) + AtPosition([ys[|ys| - 1]], p)
  {
    var r := Insert(m, ys[..|ys| - 1]);
    assert Insert(m, ys) == r + [ys[|ys| - 1]];
    AtPositionAppend(r, [ys[|ys| - 1]], p);
  }

  lemma AtPositionLast(ys: seq<Mark>, p: int)
    requires ys != []
    ensures AtPosition(ys, p) == AtPosition(ys[..|ys| - 1], p) + AtPosition([ys[|ys| - 1]], p)
  {
    assert [ys[|ys| - 1]][..0] == [];
  }

  lemma SwapDisjoint(ff: seq<Mark>, fm: seq<Mark>, fl: seq<Mark>)
    requires fm == [] || fl == []
    ensures ff + fm + fl == ff + fl + fm
  {
    if fm == [] {
      assert ff + fm == ff;
      assert ff + fl + fm == ff + fl;
    } else {
      assert ff + fm + fl == ff + fm;
      assert ff + fl == ff;
    }
  }

  /** Stability: the marks sharing a position keep their relative order. */
  lemma {:induction false} SortStable(ms: seq<Mark>, p: int)
    ensures AtPosition(SortByPosition(ms), p) == AtPosition(ms, p)
    decreases |ms|
  {
    if ms != [] {
      var front := ms[..|ms| - 1];
      SortStable(front, p);
      InsertStable(ms[|ms| - 1], SortByPosition(front), p);
      assert [ms[|ms| - 1]][..0] == [];
    }
  }

  /** A list that is already in order is left as it is. */
  lemma {:induction false} SortSorted(ms: seq<Mark>)
    requires SortedByPosition(ms)
    ensures SortByPosition(ms) == ms
    decreases |ms|
  {
    if ms != [] {
      var front, last := ms[..|ms| - 1], ms[|ms| - 1];
      assert SortedByPosition(front);
      SortSorted(front);
      SortStep(ms);
      assert ms == front + [last];
      if front != [] {
        assert front[|front| - 1].position <= last.position;
      }
    }
  }

  /** One step of the sort: the last mark is inserted into the sorted rest. */
  lemma SortStep(ms: seq<Mark>)
    requires ms != []
    ensures SortByPosition(ms) == Insert(ms[|ms| - 1], SortByPosition(ms[..|ms| - 1]))
  {
  }

  /** Number of marks of kind `k`. */
  function CountKind(ms: seq<Mark>, k: MarkKind): (n: nat)
    ensures n <= |ms|
  {
    if ms == [] then 0
    else CountKind(ms[..|ms| - 1], k) + (if ms[|ms| - 1].kind == k then 1 else 0)
  }

  lemma {:induction false} CountKindAppend(a: seq<Mark>, b: seq<Mark>, k: MarkKind)
    ensures CountKind(a + b, k) == CountKind(a, k) + CountKind(b, k)
    decreases |b|
  {
    if b == [] {
      assert a + b == a;
    } else {
      assert (a + b)[..|a + b| - 1] == a + b[..|b| - 1];
      CountKindAppend(a, b[..|b| - 1], k);
    }
  }

  lemma {:induction false} InsertCountKind(m: Mark, ys: seq<Mark>, k: MarkKind)
    ensures CountKind(Insert(m, ys), k) == CountKind(ys, k) + CountKind([m], k)
    decreases |ys|
  {
    assert [m][..0] == [];
    if ys == [] {
      assert Insert(m, ys) == [m];
    } else if ys[|ys| - 1].position <= m.position {
      assert Insert(m, ys) == ys + [m];
      CountKindAppend(ys, [m], k);
    } else {
      var last := ys[|ys| - 1];
      var front := ys[..|ys| - 1];
      var r := Insert(m, front);
      assert Insert(m, ys) == r + [last];
      assert front + [last] == ys;
      calc {
        CountKind(r + [last], k);
        { CountKindAppend(r, [last], k); }
        CountKind(r, k) + CountKind([last], k);
        { InsertCountKind(m, front, k); }
        CountKind(front, k) + CountKind([m], k) + CountKind([last], k);
        { CountKindAppend(front, [last], k); }
        CountKind(ys, k) + CountKind([m], k);
      }
    }
  }

  /** Sorting keeps the number of marks of each kind. */
  lemma {:induction false} SortCountKind(ms: seq<Mark>, k: MarkKind)
    ensures CountKind(SortByPosition(ms), k) == CountKind(ms, k)
    decreases |ms|
  {
    if ms != [] {
      var front, last := ms[..|ms| - 1], ms[|ms| - 1];
      var sorted := SortByPosition(front);
      assert ms == front + [last];
      calc {
        CountKind(SortByPosition(ms), k);
        { SortStep(ms); }
        CountKind(Insert(last, sorted), k);
        { InsertCountKind(last, sorted, k); }
        CountKind(sorted, k) + CountKind([last], k);
        { SortCountKind(front, k); }
        CountKind(front, k) + CountKind([last], k);
        { CountKindAppend(front, [last], k); }
        CountKind(ms, k);
      }
    }
  }
}
