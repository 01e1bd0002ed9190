/**
 The bounded table against the full log of inserts. When ids increase, a row is
 still there exactly when it is in the fixed prefix or among the last `maximum`
 inserted; in any case, when it is in the prefix or has one of the `maximum`
 largest ids ever inserted.
 */
module Window {
  import opened Eviction

  datatype Entry<+T> = Entry(id: int, row: T)

  ghost predicate Increasing<T>(log: seq<Entry<T>>) {
    forall j, k :: 0 <= j < k < |log| ==> log[j].id < log[k].id
  }

  /**
   Entry `k` of the log is still stored. The first `seeded` entries are the
   rows of the migration, which loads them without evicting.
   */
  ghost predicate Live<T>(log: seq<Entry<T>>, seeded: nat, fixed: int, maximum: int, k: nat)
    requires k < |log|
  {
    maximum <= 0 || log[k].id <= fixed || |log| - k <= maximum || |log| == seeded
  }

  ghost predicate IsWindow<T>(table: map<int, T>, log: seq<Entry<T>>, seeded: nat, fixed: int, maximum: int) {
    && (forall k :: 0 <= k < |log| ==> (log[k].id in table <==> Live(log, seeded, fixed, maximum, k)))
    && (forall k :: 0 <= k < |log| && log[k].id in table ==> table[log[k].id] == log[k].row)
    && (forall id :: id in table ==> exists k :: 0 <= k < |log| && log[k].id == id)
  }

  ghost function Ids<T>(log: seq<Entry<T>>): set<int> {
    set k | 0 <= k < |log| :: log[k].id
  }

  lemma {:induction false} IdsSize<T>(log: seq<Entry<T>>)
    requires Increasing(log)
    ensures |Ids(log)| == |log|
  {
    if log != [] {
      var init := log[..|log| - 1];
      IdsSize(init);
      assert Ids(log) == Ids(init) + {log[|log| - 1].id};
    }
  }

  /** In a table that holds the tail of the log after `k`, `k` has that many newer rows. */
  lemma NewerRowsAreTheTail<T>(ids: set<int>, log: seq<Entry<T>>, k: nat)
    requires Increasing(log) && k < |log|
    requires ids <= Ids(log)
    requires forall j :: k < j < |log| ==> log[j].id in ids
    ensures |Newer(ids, log[k].id)| == |log| - 1 - k
  {
    var tail := log[k + 1..];
    IdsSize(tail);
    forall id | id in Newer(ids, log[k].id)
      ensures id in Ids(tail)
    {
      var j :| 0 <= j < |log| && log[j].id == id;
      assert j > k;
      assert tail[j - k - 1].id == id;
    }
    forall id | id in Ids(tail)
      ensures id in Newer(ids, log[k].id)
    {
      var j :| 0 <= j < |tail| && tail[j].id == id;
      assert log[k + 1 + j].id in ids;
    }
    assert Newer(ids, log[k].id) == Ids(tail);
  }

  /** Insert one new row, evict: the table is the window of the longer log. */
  lemma WindowStep<T>(table: map<int, T>, log: seq<Entry<T>>, seeded: nat, fixed: int, maximum: int, added: Entry<T>)
    requires IsWindow(table, log, seeded, fixed, maximum)
    requires Increasing(log) && seeded <= |log|
    requires forall k :: 0 <= k < |log| ==> log[k].id < added.id
    ensures var full := table[added.id := added.row];
            IsWindow(full - Victims(full.Keys, fixed, maximum), log + [added], seeded, fixed, maximum)
  {
    var full, log' := table[added.id := added.row], log + [added];
    var gone := Victims(full.Keys, fixed, maximum);
    assert Increasing(log');
    forall id | id in full
      ensures exists k :: 0 <= k < |log'| && log'[k].id == id
    {
      if id == added.id {
        assert log'[|log|].id == id;
      } else {
        var k :| 0 <= k < |log| && log[k].id == id;
        assert log'[k].id == id;
      }
    }
    forall k | 0 <= k < |log'|
      ensures log'[k].id in full - gone <==> Live(log', seeded, fixed, maximum, k)
    {
      var id := log'[k].id;
      VictimsByRank(full.Keys, fixed, maximum, id);
      if id in full && id > fixed && maximum > 0 {
        assert k < |log| ==> Live(log, seeded, fixed, maximum, k);
        forall j | k < j < |log'|
          ensures log'[j].id in full.Keys
        {
          assert j < |log| ==> Live(log, seeded, fixed, maximum, j);
        }
        NewerRowsAreTheTail(full.Keys, log', k);
      } else if id !in full {
        assert !Live(log, seeded, fixed, maximum, k);
      }
    }
  }

  /** What a later table holds of a row that was inserted after `log`. */
  lemma WindowLifetime<T>(log: seq<Entry<T>>, added: Entry<T>, table: map<int, T>, log': seq<Entry<T>>,
                          seeded: nat, fixed: int, maximum: int)
    requires IsWindow(table, log', seeded, fixed, maximum)
    requires seeded <= |log| && log + [added] <= log'
    ensures added.id in table <==> maximum <= 0 || added.id <= fixed || |log'| - |log + [added]| < maximum
  {
    assert log'[|log|] == (log + [added])[|log|] == added;
    assert added.id in table <==> Live(log', seeded, fixed, maximum, |log|);
  }

  // ---------------------------------------------------------------------
  // Logs in any order of ids

  /** No entry before `k` has its id. */
  ghost predicate First<T>(log: seq<Entry<T>>, k: nat)
    requires k < |log|
  {
    forall j :: 0 <= j < k ==> log[j].id != log[k].id
  }

  /**
   The table is what one eviction leaves of all ids ever recorded, each with
   the row it was first recorded with.
   */
  ghost predicate IsRanked<T>(table: map<int, T>, log: seq<Entry<T>>, seeded: nat, fixed: int, maximum: int) {
    && table.Keys == Ids(log) - (if |log| == seeded then {} else Victims(Ids(log), fixed, maximum))
    && (forall k :: 0 <= k < |log| && First(log, k) && log[k].id in table ==> table[log[k].id] == log[k].row)
  }

  lemma RankedByCount<T>(table: map<int, T>, log: seq<Entry<T>>, seeded: nat, fixed: int, maximum: int, id: int)
    requires IsRanked(table, log, seeded, fixed, maximum)
    ensures id in table <==>
            && id in Ids(log)
            && (maximum <= 0 || id <= fixed || |Newer(Ids(log), id)| < maximum || |log| == seeded)
  {
    VictimsByRank(Ids(log), fixed, maximum, id);
  }

  /** Insert one row under any id not in the table, even one that was evicted before, and evict. */
  lemma RankStep<T>(table: map<int, T>, log: seq<Entry<T>>, seeded: nat, fixed: int, maximum: int, added: Entry<T>)
    requires IsRanked(table, log, seeded, fixed, maximum)
    requires seeded <= |log| && added.id !in table
    ensures var full := table[added.id := added.row];
            IsRanked(full - Victims(full.Keys, fixed, maximum), log + [added], seeded, fixed, maximum)
  {
    var all, full, log' := Ids(log), table[added.id := added.row], log + [added];
    var rest := full - Victims(full.Keys, fixed, maximum);
    assert full.Keys == table.Keys + {added.id};
    assert Ids(log') == all + {added.id} by {
      assert forall k :: 0 <= k < |log| ==> log'[k] == log[k];
      assert log'[|log|] == added;
    }
    EvictionCanWait(all, table.Keys, fixed, maximum, added.id);
    assert rest.Keys == Ids(log') - Victims(Ids(log'), fixed, maximum);
    assert added.id in all ==> added.id !in rest by {
      assert added.id in all ==> all + {added.id} == all;
    }
    forall k | 0 <= k < |log'| && First(log', k) && log'[k].id in rest
      ensures rest[log'[k].id] == log'[k].row
    {
      if k < |log| {
        assert log'[k] == log[k] && First(log, k) by {
          assert forall j :: 0 <= j < k ==> log'[j] == log[j];
        }
        assert log[k].id in all;
      }
    }
  }

  lemma LogGrows<T>(log: seq<Entry<T>>, log': seq<Entry<T>>, id: int)
    requires log <= log'
    ensures |Newer(Ids(log), id)| <= |Newer(Ids(log'), id)|
  {
    forall i | i in Ids(log)
      ensures i in Ids(log')
    {
      var k :| 0 <= k < |log| && log[k].id == i;
      assert log'[k] == log[k];
    }
    SubsetSize(Newer(Ids(log), id), Newer(Ids(log'), id));
  }

  /** What a later table holds of a row that was inserted after `log`. */
  lemma RankedLifetime<T>(table: map<int, T>, log: seq<Entry<T>>, table': map<int, T>, log': seq<Entry<T>>,
                          seeded: nat, fixed: int, maximum: int, added: Entry<T>)
    requires IsRanked(table, log, seeded, fixed, maximum) && seeded <= |log|
    requires IsRanked(table', log', seeded, fixed, maximum) && log + [added] <= log'
    requires added.id !in table
    ensures added.id in table' <==> maximum <= 0 || added.id <= fixed || |Newer(Ids(log'), added.id)| < maximum
    ensures added.id in table' ==> table'[added.id] == added.row
  {
    assert log'[|log|] == added;
    assert forall j :: 0 <= j < |log| ==> log'[j] == (log + [added])[j] == log[j];
    RankedByCount(table, log, seeded, fixed, maximum, added.id);
    RankedByCount(table', log', seeded, fixed, maximum, added.id);
    LogGrows(log, log', added.id);
    if added.id in table' {
      assert First(log', |log|) by {
        assert forall j :: 0 <= j < |log| ==> log[j].id in Ids(log);
      }
    }
  }
}
