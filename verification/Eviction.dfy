/**
 Size limits of a table whose rows are named by integer identifiers: the
 statement `DELETE ... WHERE id NOT IN (SELECT id ... ORDER BY id DESC LIMIT
 maximum) AND id > fixed`, on the set of identifiers alone.
 */
module Eviction {

  lemma SomeMember(ids: set<int>)
    ensures ids == {} || exists id :: id in ids
  {
    if forall id :: id !in ids {
      assert ids == {};
    }
  }

  ghost function Newer(ids: set<int>, id: int): set<int> {
    set j | j in ids && j > id
  }

  ghost function Largest(ids: set<int>): (m: int)
    requires ids != {}
    ensures m in ids
    ensures forall j :: j in ids ==> j <= m
  {
    SomeMember(ids);
    var x :| x in ids;
    assert forall j :: j in ids ==> j == x || j in ids - {x};
    if ids - {x} == {} then x
    else
      var m := Largest(ids - {x});
      if x > m then x else m
  }

  /** ORDER BY id DESC LIMIT n */
  ghost function Newest(ids: set<int>, n: nat): set<int> {
    if n == 0 || ids == {} then {}
    else {Largest(ids)} + Newest(ids - {Largest(ids)}, n - 1)
  }

  ghost function Victims(ids: set<int>, fixed: int, maximum: int): set<int> {
    if maximum <= 0 then {}
    else set id | id in ids && id !in Newest(ids, maximum) && id > fixed
  }

  /** Every row above the fixed prefix has fewer than `maximum` newer rows. */
  ghost predicate Steady(ids: set<int>, fixed: int, maximum: int) {
    maximum > 0 ==> forall id :: id in ids && id > fixed ==> |Newer(ids, id)| < maximum
  }

  lemma {:induction false} SubsetSize(a: set<int>, b: set<int>)
    requires a <= b
    ensures |a| <= |b|
    decreases a
  {
    SomeMember(a);
    if a != {} {
      var x :| x in a;
      SubsetSize(a - {x}, b - {x});
    }
  }

  /** A row is among the `n` newest exactly when fewer than `n` rows are newer. */
  lemma {:induction false} NewestByRank(ids: set<int>, n: nat, id: int)
    ensures id in Newest(ids, n) <==> id in ids && |Newer(ids, id)| < n
    decreases n
  {
    if n > 0 && ids != {} {
      var m := Largest(ids);
      NewestByRank(ids - {m}, n - 1, id);
      if id == m {
        assert Newer(ids, id) == {};
      } else if id in ids {
        assert Newer(ids, id) == Newer(ids - {m}, id) + {m};
      }
    }
  }

  /** The rows the statement deletes, by how many rows are newer. */
  lemma VictimsByRank(ids: set<int>, fixed: int, maximum: int, id: int)
    ensures id in Victims(ids, fixed, maximum) <==>
            maximum > 0 && id in ids && id > fixed && |Newer(ids, id)| >= maximum
  {
    if maximum > 0 {
      NewestByRank(ids, maximum, id);
    }
  }

  lemma SteadyMeansNoVictims(ids: set<int>, fixed: int, maximum: int)
    ensures Steady(ids, fixed, maximum) <==> Victims(ids, fixed, maximum) == {}
  {
    forall id
      ensures id in Victims(ids, fixed, maximum) <==>
              maximum > 0 && id in ids && id > fixed && |Newer(ids, id)| >= maximum
    {
      VictimsByRank(ids, fixed, maximum, id);
    }
    if !Steady(ids, fixed, maximum) {
      var id :| id in ids && id > fixed && |Newer(ids, id)| >= maximum;
      assert id in Victims(ids, fixed, maximum);
    }
  }

  /** Deleting any rows, by any cause, keeps a table steady. */
  lemma SteadyAfterDelete(ids: set<int>, rest: set<int>, fixed: int, maximum: int)
    requires Steady(ids, fixed, maximum) && rest <= ids
    ensures Steady(rest, fixed, maximum)
  {
    forall id | id in rest && id > fixed
      ensures maximum > 0 ==> |Newer(rest, id)| < maximum
    {
      SubsetSize(Newer(rest, id), Newer(ids, id));
    }
  }

  /** Eviction makes any table steady, so evicting again deletes nothing. */
  lemma EvictionSettles(ids: set<int>, fixed: int, maximum: int)
    ensures Steady(ids - Victims(ids, fixed, maximum), fixed, maximum)
    ensures Victims(ids - Victims(ids, fixed, maximum), fixed, maximum) == {}
  {
    var rest := ids - Victims(ids, fixed, maximum);
    forall id | id in rest && id > fixed
      ensures maximum > 0 ==> |Newer(rest, id)| < maximum
    {
      VictimsByRank(ids, fixed, maximum, id);
      SubsetSize(Newer(rest, id), Newer(ids, id));
    }
    SteadyMeansNoVictims(rest, fixed, maximum);
  }

  /** No row goes while an older row above the fixed prefix stays. */
  lemma NoOlderSurvivor(ids: set<int>, fixed: int, maximum: int, older: int, victim: int)
    requires victim in Victims(ids, fixed, maximum)
    requires older in ids && fixed < older < victim
    ensures older in Victims(ids, fixed, maximum)
  {
    VictimsByRank(ids, fixed, maximum, victim);
    VictimsByRank(ids, fixed, maximum, older);
    SubsetSize(Newer(ids, victim), Newer(ids, older));
  }

  /** The row with the largest identifier always stays. */
  lemma FreshRowStays(ids: set<int>, fixed: int, maximum: int, added: int)
    requires forall j :: j in ids ==> j <= added
    ensures added !in Victims(ids, fixed, maximum)
  {
    VictimsByRank(ids, fixed, maximum, added);
    assert Newer(ids, added) == {};
  }

  lemma {:induction false} NewestSize(ids: set<int>, n: nat)
    requires n <= |ids|
    ensures Newest(ids, n) <= ids && |Newest(ids, n)| == n
    decreases n
  {
    if n > 0 {
      var m := Largest(ids);
      NewestSize(ids - {m}, n - 1);
      assert m !in Newest(ids - {m}, n - 1);
    }
  }

  /** With `n` rows newer than `id`, the `n` newest are all newer than `id`. */
  lemma NewestAbove(ids: set<int>, n: nat, id: int)
    requires |Newer(ids, id)| >= n
    ensures Newest(ids, n) <= Newer(ids, id) && |Newest(ids, n)| == n
  {
    SubsetSize(Newer(ids, id), ids);
    NewestSize(ids, n);
    forall j | j in Newest(ids, n)
      ensures j > id
    {
      NewestByRank(ids, n, j);
      if j <= id {
        SubsetSize(Newer(ids, id), Newer(ids, j));
      }
    }
  }

  /** Eviction leaves every row it buries under `maximum` newer rows. */
  lemma EvictionKeepsBurying(ids: set<int>, fixed: int, maximum: int, id: int)
    requires maximum > 0 && |Newer(ids, id)| >= maximum
    ensures |Newer(ids - Victims(ids, fixed, maximum), id)| >= maximum
  {
    NewestAbove(ids, maximum, id);
    SubsetSize(Newest(ids, maximum), Newer(ids - Victims(ids, fixed, maximum), id));
  }

  /**
   It does not matter whether a table was evicted before a row came in: what
   is evicted afterwards is the same.
   */
  lemma EvictionCanWait(all: set<int>, ids: set<int>, fixed: int, maximum: int, added: int)
    requires all - Victims(all, fixed, maximum) <= ids <= all
    ensures ids + {added} - Victims(ids + {added}, fixed, maximum)
         == all + {added} - Victims(all + {added}, fixed, maximum)
  {
    var few, many := ids + {added}, all + {added};
    forall id
      ensures id in many - Victims(many, fixed, maximum) ==> id in few
    {
      VictimsByRank(many, fixed, maximum, id);
      VictimsByRank(all, fixed, maximum, id);
      SubsetSize(Newer(all, id), Newer(many, id));
    }
    forall id
      ensures id in few - Victims(few, fixed, maximum) <==> id in many - Victims(many, fixed, maximum)
    {
      VictimsByRank(few, fixed, maximum, id);
      VictimsByRank(many, fixed, maximum, id);
      SubsetSize(Newer(few, id), Newer(many, id));
      if maximum > 0 && |Newer(many, id)| >= maximum {
        EvictionKeepsBurying(many, fixed, maximum, id);
        SubsetSize(Newer(many - Victims(many, fixed, maximum), id), Newer(few, id));
      }
    }
  }

  lemma PrefixIsSpared(ids: set<int>, fixed: int, maximum: int)
    requires forall id :: id in ids ==> id <= fixed
    ensures Victims(ids, fixed, maximum) == {}
  {
  }

  /** In a steady table one more row, whatever its id, costs at most one row. */
  lemma OneInOneOut(ids: set<int>, fixed: int, maximum: int, added: int)
    requires Steady(ids, fixed, maximum)
    ensures |Victims(ids + {added}, fixed, maximum)| <= 1
  {
    var gone := Victims(ids + {added}, fixed, maximum);
    forall i, j | i in gone && j in gone
      ensures i == j
    {
      if i < j {
        OneVictimOnly(ids, fixed, maximum, added, i, j);
      } else if j < i {
        OneVictimOnly(ids, fixed, maximum, added, j, i);
      }
    }
    SomeMember(gone);
    if gone != {} {
      var x :| x in gone;
      assert gone == {x};
    }
  }

  lemma OneVictimOnly(ids: set<int>, fixed: int, maximum: int, added: int, lo: int, hi: int)
    requires Steady(ids, fixed, maximum) && lo < hi
    ensures !(lo in Victims(ids + {added}, fixed, maximum) && hi in Victims(ids + {added}, fixed, maximum))
  {
    var all := ids + {added};
    VictimsByRank(all, fixed, maximum, lo);
    VictimsByRank(all, fixed, maximum, hi);
    SubsetSize(Newer(all, lo), Newer(ids, lo) + {added});
    if hi in ids {
      SubsetSize(Newer(all, hi), Newer(ids, hi) + {added});
      SubsetSize(Newer(ids, hi) + {hi}, Newer(ids, lo));
    } else if hi == added {
      SubsetSize(Newer(all, hi), Newer(ids, lo));
    }
    if lo == added && lo !in ids {
      SubsetSize(Newer(all, hi), Newer(ids, hi));
    }
  }

  lemma AtMostOneMissing(ids: set<int>, after: set<int>, fixed: int, maximum: int, added: int)
    requires Steady(ids, fixed, maximum)
    requires after == ids + {added} - Victims(ids + {added}, fixed, maximum)
    ensures |ids - after| <= 1
  {
    OneInOneOut(ids, fixed, maximum, added);
    SubsetSize(ids - after, Victims(ids + {added}, fixed, maximum));
  }

  lemma {:induction false} PrefixSize(ids: set<int>, n: nat)
    requires forall j :: j in ids ==> 1 <= j <= n
    ensures |ids| <= n
  {
    if n > 0 {
      PrefixSize(ids - {n}, n - 1);
    } else {
      SomeMember(ids);
    }
  }

  lemma {:induction false} Least(ids: set<int>) returns (m: int)
    requires ids != {}
    ensures m in ids
    ensures forall j :: j in ids ==> m <= j
  {
    SomeMember(ids);
    m :| m in ids;
    assert forall j :: j in ids ==> j == m || j in ids - {m};
    if ids - {m} != {} {
      var rest := Least(ids - {m});
      m := if m < rest then m else rest;
    }
  }

  lemma RowsAboveTheLeast(high: set<int>, maximum: int)
    requires maximum > 0
    requires forall id :: id in high ==> |Newer(high, id)| < maximum
    ensures |high| <= maximum
  {
    if high != {} {
      var m := Least(high);
      assert high == Newer(high, m) + {m};
    }
  }

  /** Above the fixed prefix a steady table holds at most `maximum` rows, whatever the ids below. */
  lemma SteadyAbovePrefix(ids: set<int>, fixed: int, maximum: int)
    requires maximum > 0 && Steady(ids, fixed, maximum)
    ensures |Newer(ids, fixed)| <= maximum
  {
    var high := Newer(ids, fixed);
    forall id | id in high
      ensures |Newer(high, id)| < maximum
    {
      SubsetSize(Newer(high, id), Newer(ids, id));
    }
    RowsAboveTheLeast(high, maximum);
  }

  /** A steady table holds at most `maximum` rows besides the fixed prefix. */
  lemma SteadySize(ids: set<int>, fixed: int, maximum: int)
    requires maximum > 0 && Steady(ids, fixed, maximum)
    requires forall j :: j in ids ==> 1 <= j
    ensures |ids| <= maximum + (if fixed > 0 then fixed else 0)
  {
    var low := set j | j in ids && j <= fixed;
    var high := Newer(ids, fixed);
    PrefixSize(low, if fixed > 0 then fixed else 0);
    SteadyAbovePrefix(ids, fixed, maximum);
    assert ids == low + high;
  }

  /**
   The sub-select, computed by repeatedly taking the largest remaining id.
   */
  method SelectNewest(ids: set<int>, limit: nat) returns (newest: set<int>)
    ensures newest == Newest(ids, limit)
  {
    newest := {};
    var rest, left := ids, limit;
    while left > 0 && rest != {}
      invariant newest + Newest(rest, left) == Newest(ids, limit)
    {
      SomeMember(rest);
      var top :| top in rest;
      var todo := rest - {top};
      while todo != {}
        invariant todo <= rest && top in rest
        invariant forall j :: j in rest && j !in todo ==> j <= top
        decreases todo
      {
        SomeMember(todo);
        var j :| j in todo;
        todo := todo - {j};
        if j > top {
          top := j;
        }
      }
      assert top == Largest(rest);
      newest, rest, left := newest + {top}, rest - {top}, left - 1;
    }
  }

  /** The rows to delete: a walk over all ids against the sub-select and the cutoff. */
  method SelectVictims(ids: set<int>, fixed: int, maximum: int) returns (gone: set<int>)
    ensures gone == Victims(ids, fixed, maximum)
  {
    gone := {};
    if maximum <= 0 {
      return;
    }
    var newest := SelectNewest(ids, maximum);
    var todo := ids;
    while todo != {}
      invariant todo <= ids
      invariant gone + todo * Victims(ids, fixed, maximum) == Victims(ids, fixed, maximum)
      invariant gone <= ids
      decreases todo
    {
      SomeMember(todo);
      var id :| id in todo;
      todo := todo - {id};
      if id !in newest && id > fixed {
        gone := gone + {id};
      }
    }
  }
}
