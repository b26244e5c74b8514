/** Sorting events by their `dateSort` key, the model of
    `[...xs].sort((a, b) => a.dateSort.localeCompare(b.dateSort))`:
    the result is a new sequence, ascending by key, a permutation of the
    input, and stable (events with equal keys keep their input order). */
module DateOrder {
  import opened ExpoTypes
  import opened Text

  predicate SortedByDate(s: seq<ExpoEvent>) {
    forall i, j :: 0 <= i < j < |s| ==> LexLe(s[i].dateSort, s[j].dateSort)
  }

  /** The events of s whose key is exactly k, in the order of s. */
  function WithDateSort(k: string, s: seq<ExpoEvent>): seq<ExpoEvent>
  {
    if |s| == 0 then []
    else WithDateSort(k, s[..|s| - 1]) + if s[|s| - 1].dateSort == k then [s[|s| - 1]] else []
  }

  /** Insert x into a sorted r after every event whose key is not greater. */
  function InsertByDate(r: seq<ExpoEvent>, x: ExpoEvent): seq<ExpoEvent>
  {
    if |r| == 0 then [x]
    else if LexLe(r[|r| - 1].dateSort, x.dateSort) then r + [x]
    else InsertByDate(r[..|r| - 1], x) + [r[|r| - 1]]
  }

  /** A stable sort of s by `dateSort` (insertion sort, from the left). */
  function SortByDate(s: seq<ExpoEvent>): seq<ExpoEvent>
  {
    if |s| == 0 then [] else InsertByDate(SortByDate(s[..|s| - 1]), s[|s| - 1])
  }

  lemma {:induction false} InsertByDateMultiset(r: seq<ExpoEvent>, x: ExpoEvent)
    ensures multiset(InsertByDate(r, x)) == multiset(r) + multiset{x}
  {
    if |r| > 0 && !LexLe(r[|r| - 1].dateSort, x.dateSort) {
      InsertByDateMultiset(r[..|r| - 1], x);
      assert r == r[..|r| - 1] + [r[|r| - 1]];
    }
  }

  lemma {:induction false} InsertByDateSorted(r: seq<ExpoEvent>, x: ExpoEvent)
    requires SortedByDate(r)
    ensures SortedByDate(InsertByDate(r, x))
  {
    if |r| > 0 {
      var init, last := r[..|r| - 1], r[|r| - 1];
      if LexLe(last.dateSort, x.dateSort) {
        forall i | 0 <= i < |r|
          ensures LexLe(r[i].dateSort, x.dateSort)
        {
          if i < |r| - 1 {
            LexLeTransitive(r[i].dateSort, last.dateSort, x.dateSort);
          }
        }
      } else {
        InsertByDateSorted(init, x);
        InsertByDateMultiset(init, x);
        LexLeTotal(last.dateSort, x.dateSort);
        var t := InsertByDate(init, x);
        forall i | 0 <= i < |t|
          ensures LexLe(t[i].dateSort, last.dateSort)
        {
          assert t[i] in multiset(t);
          if t[i] != x {
            var j :| 0 <= j < |init| && init[j] == t[i];
            assert r[j] == init[j];
          }
        }
      }
    }
  }

  /** Inserting x adds x to the end of its own key's run and changes no other run. */
  lemma {:induction false} InsertByDateStable(r: seq<ExpoEvent>, x: ExpoEvent, k: string)
    ensures WithDateSort(k, InsertByDate(r, x))
         == WithDateSort(k, r) + if x.dateSort == k then [x] else []
  {
    if |r| == 0 {
      assert InsertByDate(r, x)[..0] == [];
    } else {
      var init, last := r[..|r| - 1], r[|r| - 1];
      if LexLe(last.dateSort, x.dateSort) {
        assert (r + [x])[..|r|] == r;
      } else {
        InsertByDateStable(init, x, k);
        var t := InsertByDate(init, x);
        assert (t + [last])[..|t|] == t;
        if last.dateSort == k {
          LexLeReflexive(k);
        }
      }
    }
  }

  /** The sort's result is ascending by key. */
  lemma {:induction false} SortByDateSorted(s: seq<ExpoEvent>)
    ensures SortedByDate(SortByDate(s))
  {
    if |s| > 0 {
      SortByDateSorted(s[..|s| - 1]);
      InsertByDateSorted(SortByDate(s[..|s| - 1]), s[|s| - 1]);
    }
  }

  /** The sort's result is a permutation of its input. */
  lemma {:induction false} SortByDatePermutation(s: seq<ExpoEvent>)
    ensures multiset(SortByDate(s)) == multiset(s)
  {
    if |s| > 0 {
      var init, x := s[..|s| - 1], s[|s| - 1];
      SortByDatePermutation(init);
      InsertByDateMultiset(SortByDate(init), x);
      assert s == init + [x];
    }
  }

  /** The sort is stable: the events sharing any one key keep their input order. */
  lemma {:induction false} SortByDateStable(s: seq<ExpoEvent>, k: string)
    ensures WithDateSort(k, SortByDate(s)) == WithDateSort(k, s)
  {
    if |s| > 0 {
      SortByDateStable(s[..|s| - 1], k);
      InsertByDateStable(SortByDate(s[..|s| - 1]), s[|s| - 1], k);
    }
  }
}
