/** `drop_duplicates(subset=['Synopsis'])` with its default `keep='first'`
    (app.py:159): a row stays when no earlier row has the same synopsis. */
module Dedup {
  import opened Records

  /** The synopses that occur in `rows`. */
  function Synopses(rows: seq<Row>): set<string>
  {
    set i | 0 <= i < |rows| :: rows[i].synopsis
  }

  /** No two rows share a synopsis. */
  predicate DistinctSynopses(rows: seq<Row>)
  {
    forall i, j :: 0 <= i < j < |rows| ==> rows[i].synopsis != rows[j].synopsis
  }

  /** Row `i` is the first row with its synopsis. */
  predicate IsFirst(rows: seq<Row>, i: int)
    requires 0 <= i < |rows|
  {
    forall j :: 0 <= j < i ==> rows[j].synopsis != rows[i].synopsis
  }

  /** `small` is `big` with some rows removed, the rest kept in order. */
  predicate IsSubsequence(small: seq<Row>, big: seq<Row>)
    decreases |big|
  {
    if small == [] then true
    else if big == [] then false
    else if small[0] == big[0] then IsSubsequence(small[1..], big[1..])
    else IsSubsequence(small, big[1..])
  }

  lemma SynopsesSnoc(rows: seq<Row>, x: Row)
    ensures Synopses(rows + [x]) == Synopses(rows) + {x.synopsis}
  {
    var both := rows + [x];
    forall s | s in Synopses(both) ensures s in Synopses(rows) + {x.synopsis} {
      var i :| 0 <= i < |both| && both[i].synopsis == s;
      if i < |rows| {
        assert rows[i] == both[i];
      }
    }
    forall s | s in Synopses(rows) ensures s in Synopses(both) {
      var i :| 0 <= i < |rows| && rows[i].synopsis == s;
      assert both[i] == rows[i];
    }
    assert both[|rows|] == x;
  }

  /** The table after dropping every row whose synopsis an earlier row
      already has. */
  function DropDuplicateSynopses(rows: seq<Row>): (r: seq<Row>)
    ensures |r| <= |rows|
    ensures Synopses(r) == Synopses(rows)
    ensures DistinctSynopses(r)
    ensures forall x | x in r :: x in rows
  {
    if rows == [] then []
    else
      var n := |rows| - 1;
      var prior := DropDuplicateSynopses(rows[..n]);
      assert rows == rows[..n] + [rows[n]];
      SynopsesSnoc(rows[..n], rows[n]);
      if rows[n].synopsis in Synopses(rows[..n]) then prior
      else
        SynopsesSnoc(prior, rows[n]);
        prior + [rows[n]]
  }

  /** The last row is the first with its synopsis exactly when no earlier
      row has that synopsis. */
  lemma LastIsFirst(rows: seq<Row>)
    requires rows != []
    ensures IsFirst(rows, |rows| - 1) <==> rows[|rows| - 1].synopsis !in Synopses(rows[..|rows| - 1])
  {
    var n := |rows| - 1;
    if IsFirst(rows, n) {
      forall j | 0 <= j < n ensures rows[..n][j].synopsis != rows[n].synopsis {
        assert rows[..n][j] == rows[j];
      }
    } else {
      var j :| 0 <= j < n && rows[j].synopsis == rows[n].synopsis;
      assert rows[..n][j].synopsis == rows[n].synopsis;
    }
  }

  /** Whether the last row stays depends only on the rows before it. */
  lemma LastRowKept(rows: seq<Row>)
    requires rows != []
    ensures var n := |rows| - 1;
      DropDuplicateSynopses(rows) == DropDuplicateSynopses(rows[..n]) + (if IsFirst(rows, n) then [rows[n]] else [])
  {
    var n := |rows| - 1;
    LastIsFirst(rows);
    if IsFirst(rows, n) {
      assert DropDuplicateSynopses(rows) == DropDuplicateSynopses(rows[..n]) + [rows[n]];
    } else {
      assert DropDuplicateSynopses(rows) == DropDuplicateSynopses(rows[..n]);
      assert DropDuplicateSynopses(rows[..n]) + [] == DropDuplicateSynopses(rows[..n]);
    }
  }

  lemma IsFirstInPrefix(rows: seq<Row>, k: int, i: int)
    requires 0 <= i < k <= |rows|
    ensures IsFirst(rows[..k], i) <==> IsFirst(rows, i)
  {
    assert forall j :: 0 <= j <= i ==> rows[..k][j] == rows[j];
  }

  /** The rows kept are exactly the first row of each synopsis. */
  lemma {:induction false} KeptAreFirst(rows: seq<Row>, x: Row)
    ensures x in DropDuplicateSynopses(rows) <==> exists i :: 0 <= i < |rows| && rows[i] == x && IsFirst(rows, i)
    decreases |rows|
  {
    if rows != [] {
      var n := |rows| - 1;
      var init := rows[..n];
      LastRowKept(rows);
      KeptAreFirst(init, x);
      if x in DropDuplicateSynopses(rows) {
        if x in DropDuplicateSynopses(init) {
          var i :| 0 <= i < |init| && init[i] == x && IsFirst(init, i);
          IsFirstInPrefix(rows, n, i);
          assert rows[i] == x && IsFirst(rows, i);
        } else {
          assert rows[n] == x && IsFirst(rows, n);
        }
      } else {
        forall i | 0 <= i < |rows| && rows[i] == x ensures !IsFirst(rows, i) {
          if i < n {
            IsFirstInPrefix(rows, n, i);
            assert init[i] == x;
          }
        }
      }
    }
  }

  lemma {:induction false} SubsequenceSnoc(small: seq<Row>, big: seq<Row>, x: Row)
    requires IsSubsequence(small, big)
    ensures IsSubsequence(small + [x], big + [x])
    decreases |big|
  {
    if small == [] {
      assert small + [x] == [x];
      SubsequenceOfAny([x], big + [x]);
    } else {
      assert big != [];
      assert (small + [x])[0] == small[0] && (small + [x])[1..] == small[1..] + [x];
      assert (big + [x])[0] == big[0] && (big + [x])[1..] == big[1..] + [x];
      if small[0] == big[0] {
        SubsequenceSnoc(small[1..], big[1..], x);
      } else {
        SubsequenceSnoc(small, big[1..], x);
      }
    }
  }

  lemma {:induction false} SubsequenceOfAny(last: seq<Row>, big: seq<Row>)
    requires |last| == 1 && big != [] && big[|big| - 1] == last[0]
    ensures IsSubsequence(last, big)
    decreases |big|
  {
    if last[0] != big[0] {
      SubsequenceOfAny(last, big[1..]);
    } else {
      assert last[1..] == [];
    }
  }

  lemma {:induction false} SubsequenceExtend(small: seq<Row>, big: seq<Row>, x: Row)
    requires IsSubsequence(small, big)
    ensures IsSubsequence(small, big + [x])
    decreases |big|
  {
    if small != [] {
      assert big != [];
      assert (big + [x])[0] == big[0] && (big + [x])[1..] == big[1..] + [x];
      if small[0] == big[0] {
        SubsequenceExtend(small[1..], big[1..], x);
      } else {
        SubsequenceExtend(small, big[1..], x);
      }
    }
  }

  /** The kept rows keep their relative order. */
  lemma {:induction false} DropKeepsOrder(rows: seq<Row>)
    ensures IsSubsequence(DropDuplicateSynopses(rows), rows)
    decreases |rows|
  {
    if rows != [] {
      var n := |rows| - 1;
      DropKeepsOrder(rows[..n]);
      assert rows == rows[..n] + [rows[n]];
      if rows[n].synopsis in Synopses(rows[..n]) {
        SubsequenceExtend(DropDuplicateSynopses(rows[..n]), rows[..n], rows[n]);
      } else {
        SubsequenceSnoc(DropDuplicateSynopses(rows[..n]), rows[..n], rows[n]);
      }
    }
  }

  /** A table whose synopses are already distinct is left as it is. */
  lemma {:induction false} DropDistinctIsIdentity(rows: seq<Row>)
    requires DistinctSynopses(rows)
    ensures DropDuplicateSynopses(rows) == rows
    decreases |rows|
  {
    if rows != [] {
      var n := |rows| - 1;
      assert DistinctSynopses(rows[..n]);
      DropDistinctIsIdentity(rows[..n]);
      forall j | 0 <= j < n ensures rows[..n][j].synopsis != rows[n].synopsis {
        assert rows[..n][j] == rows[j];
      }
      assert rows[n].synopsis !in Synopses(rows[..n]);
      assert rows == rows[..n] + [rows[n]];
    }
  }

  /** Dropping duplicates a second time changes nothing. */
  lemma DropIdempotent(rows: seq<Row>)
    ensures DropDuplicateSynopses(DropDuplicateSynopses(rows)) == DropDuplicateSynopses(rows)
  {
    DropDistinctIsIdentity(DropDuplicateSynopses(rows));
  }

  /** Every synopsis appears in exactly one kept row. */
  lemma OneRowPerSynopsis(rows: seq<Row>, s: string)
    requires s in Synopses(rows)
    ensures var r := DropDuplicateSynopses(rows);
      (exists i :: 0 <= i < |r| && r[i].synopsis == s)
      && forall i, j | 0 <= i < |r| && 0 <= j < |r| && r[i].synopsis == s && r[j].synopsis == s :: i == j
  {
    assert s in Synopses(DropDuplicateSynopses(rows));
  }
}
