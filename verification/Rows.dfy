/** Rows of an append-only ledger: anything the dashboard pages, sorts or windows by its `id`.
    The sort is the stable ascending sort that the folds apply to their input. */
module Rows {

  datatype Row<T> = Row(id: int, item: T)

  /** Strictly increasing ids: what SQLite's autoincrement key gives every ledger. */
  ghost predicate Ascending<T>(s: seq<Row<T>>) {
    forall i, j :: 0 <= i < j < |s| ==> s[i].id < s[j].id
  }

  ghost predicate NonDescending<T>(s: seq<Row<T>>) {
    forall i, j :: 0 <= i < j < |s| ==> s[i].id <= s[j].id
  }

  ghost predicate DistinctIds<T>(s: seq<Row<T>>) {
    forall i, j :: 0 <= i < j < |s| ==> s[i].id != s[j].id
  }

  /** Every id of `a` is below every id of `b`. */
  ghost predicate Below<T>(a: seq<Row<T>>, b: seq<Row<T>>) {
    forall i, j :: 0 <= i < |a| && 0 <= j < |b| ==> a[i].id < b[j].id
  }

  // ---- sorting by id ----

  function InsertById<T>(r: Row<T>, s: seq<Row<T>>): seq<Row<T>> {
    if s == [] || r.id <= s[0].id then [r] + s else [s[0]] + InsertById(r, s[1..])
  }

  function SortById<T>(s: seq<Row<T>>): seq<Row<T>> {
    if s == [] then [] else InsertById(s[0], SortById(s[1..]))
  }

  /** The same rows, whatever their order and multiplicity. */
  ghost predicate SameRows<T>(a: seq<Row<T>>, b: seq<Row<T>>) {
    && (forall i :: 0 <= i < |a| ==> a[i] in b)
    && (forall i :: 0 <= i < |b| ==> b[i] in a)
  }

  lemma {:induction false} InsertByIdRow<T>(r: Row<T>, s: seq<Row<T>>, x: Row<T>)
    ensures x in InsertById(r, s) <==> x == r || x in s
  {
    if s == [] || r.id <= s[0].id {
    } else {
      InsertByIdRow(r, s[1..], x);
      assert s == [s[0]] + s[1..];
    }
  }

  lemma {:induction false} InsertByIdKeepsOrder<T>(r: Row<T>, s: seq<Row<T>>)
    requires NonDescending(s)
    ensures NonDescending(InsertById(r, s))
  {
    if s == [] || r.id <= s[0].id {
    } else {
      InsertByIdKeepsOrder(r, s[1..]);
      var t := InsertById(r, s[1..]);
      forall k | 0 <= k < |t| ensures s[0].id <= t[k].id {
        assert t[k] in t;
        InsertByIdRow(r, s[1..], t[k]);
      }
    }
  }

  lemma {:induction false} InsertByIdAscends<T>(r: Row<T>, s: seq<Row<T>>)
    requires Ascending(s) && forall k :: 0 <= k < |s| ==> s[k].id != r.id
    ensures Ascending(InsertById(r, s))
  {
    if s == [] || r.id <= s[0].id {
    } else {
      InsertByIdAscends(r, s[1..]);
      var t := InsertById(r, s[1..]);
      forall k | 0 <= k < |t| ensures s[0].id < t[k].id {
        assert t[k] in t;
        InsertByIdRow(r, s[1..], t[k]);
      }
    }
  }

  /** The sort neither loses nor invents a row, nor repeats one. */
  lemma {:induction false} SortByIdRow<T>(s: seq<Row<T>>, x: Row<T>)
    ensures x in SortById(s) <==> x in s
    ensures |SortById(s)| == |s|
  {
    if s == [] {
    } else {
      SortByIdRow(s[1..], x);
      InsertByIdRow(s[0], SortById(s[1..]), x);
      InsertByIdLength(s[0], SortById(s[1..]));
      assert s == [s[0]] + s[1..];
    }
  }

  lemma {:induction false} InsertByIdLength<T>(r: Row<T>, s: seq<Row<T>>)
    ensures |InsertById(r, s)| == |s| + 1
  {
    if s == [] || r.id <= s[0].id {
    } else {
      InsertByIdLength(r, s[1..]);
    }
  }

  lemma {:induction false} SortByIdSorts<T>(s: seq<Row<T>>)
    ensures NonDescending(SortById(s))
  {
    if s == [] {
    } else {
      SortByIdSorts(s[1..]);
      InsertByIdKeepsOrder(s[0], SortById(s[1..]));
    }
  }

  lemma {:induction false} SortByIdAscends<T>(s: seq<Row<T>>)
    requires DistinctIds(s)
    ensures Ascending(SortById(s))
  {
    if s == [] {
    } else {
      SortByIdAscends(s[1..]);
      var t := SortById(s[1..]);
      forall k | 0 <= k < |t| ensures t[k].id != s[0].id {
        assert t[k] in t;
        SortByIdRow(s[1..], t[k]);
        var j :| 0 <= j < |s[1..]| && s[1..][j] == t[k];
        assert s[j + 1] == t[k];
      }
      InsertByIdAscends(s[0], t);
    }
  }

  lemma {:induction false} SortedIsFixed<T>(s: seq<Row<T>>)
    requires NonDescending(s)
    ensures SortById(s) == s
  {
    if s == [] {
    } else {
      SortedIsFixed(s[1..]);
      assert s == [s[0]] + s[1..];
      if |s| > 1 { assert s[0].id <= s[1].id; }
    }
  }

  /** A strictly ascending sequence is determined by its rows. */
  lemma {:induction false} AscendingIsUnique<T>(a: seq<Row<T>>, b: seq<Row<T>>)
    requires Ascending(a) && Ascending(b) && SameRows(a, b)
    ensures a == b
  {
    if a == [] {
    } else {
      assert a[0] in a && a[0] in b;
      assert b[0] in b && b[0] in a;
      assert a[0] == b[0];
      AscendingTail(a);
      AscendingTail(b);
      AscendingIsUnique(a[1..], b[1..]);
    }
  }

  lemma {:induction false} AscendingTail<T>(a: seq<Row<T>>)
    requires Ascending(a) && a != []
    ensures Ascending(a[1..])
    ensures forall x :: x in a[1..] <==> x in a && x != a[0]
    ensures a == [a[0]] + a[1..]
  {
    assert a == [a[0]] + a[1..];
    assert forall x :: x in a[1..] ==> a[0].id < x.id;
  }

  lemma {:induction false} SortedRows<T>(a: seq<Row<T>>, b: seq<Row<T>>)
    requires SameRows(a, b)
    ensures forall i :: 0 <= i < |SortById(a)| ==> SortById(a)[i] in SortById(b)
  {
    forall i | 0 <= i < |SortById(a)| ensures SortById(a)[i] in SortById(b) {
      var x := SortById(a)[i];
      SortByIdRow(a, x);
      SortByIdRow(b, x);
    }
  }

  /** The arrival order of rows with distinct ids does not matter once they are sorted. */
  lemma {:induction false} SortIgnoresOrder<T>(a: seq<Row<T>>, b: seq<Row<T>>)
    requires DistinctIds(a) && DistinctIds(b) && SameRows(a, b)
    ensures SortById(a) == SortById(b)
  {
    SortByIdAscends(a);
    SortByIdAscends(b);
    SortedRows(a, b);
    SortedRows(b, a);
    AscendingIsUnique(SortById(a), SortById(b));
  }

  lemma {:induction false} InsertBelow<T>(r: Row<T>, s: seq<Row<T>>, t: seq<Row<T>>)
    requires forall x :: x in t ==> r.id <= x.id
    ensures InsertById(r, s + t) == InsertById(r, s) + t
  {
    if s == [] {
      assert s + t == t;
      assert [r] + t == InsertById(r, s) + t;
      if t != [] { assert t[0] in t; }
    } else if r.id <= s[0].id {
      assert [r] + (s + t) == ([r] + s) + t;
    } else {
      assert (s + t)[1..] == s[1..] + t;
      InsertBelow(r, s[1..], t);
    }
  }

  /** Sorting a batch that lies wholly after an earlier one sorts the two separately. */
  lemma {:induction false} SortConcat<T>(xs: seq<Row<T>>, ys: seq<Row<T>>)
    requires Below(xs, ys)
    ensures SortById(xs + ys) == SortById(xs) + SortById(ys)
  {
    if xs == [] {
      assert xs + ys == ys;
    } else {
      assert (xs + ys)[1..] == xs[1..] + ys;
      SortConcat(xs[1..], ys);
      forall x | x in SortById(ys) ensures xs[0].id <= x.id {
        SortByIdRow(ys, x);
      }
      InsertBelow(xs[0], SortById(xs[1..]), SortById(ys));
    }
  }

  // ---- cursors over a ledger ----

  /** The rows at or below a cursor. */
  function UpTo<T>(s: seq<Row<T>>, cursor: int): seq<Row<T>> {
    if s == [] then []
    else (if s[0].id <= cursor then [s[0]] else []) + UpTo(s[1..], cursor)
  }

  /** The rows past a cursor: the SQL filter `id > ?`. */
  function After<T>(s: seq<Row<T>>, cursor: int): seq<Row<T>> {
    if s == [] then []
    else (if s[0].id > cursor then [s[0]] else []) + After(s[1..], cursor)
  }

  function Take<T>(s: seq<T>, n: nat): seq<T> {
    if n <= |s| then s[..n] else s
  }

  function TailId<T>(s: seq<Row<T>>): int {
    if s == [] then 0 else s[|s| - 1].id
  }

  ghost predicate IsPrefix<T>(p: seq<T>, s: seq<T>) {
    |p| <= |s| && p == s[..|p|]
  }

  lemma {:induction false} CursorMember<T>(s: seq<Row<T>>, cursor: int, x: Row<T>)
    ensures x in UpTo(s, cursor) <==> x in s && x.id <= cursor
    ensures x in After(s, cursor) <==> x in s && x.id > cursor
  {
    if s == [] {
    } else {
      CursorMember(s[1..], cursor, x);
      assert s == [s[0]] + s[1..];
    }
  }

  lemma {:induction false} AllPast<T>(s: seq<Row<T>>, cursor: int)
    requires forall x :: x in s ==> x.id > cursor
    ensures UpTo(s, cursor) == [] && After(s, cursor) == s
  {
    if s == [] {
    } else {
      assert s[0] in s;
      AllPast(s[1..], cursor);
      assert s == [s[0]] + s[1..];
    }
  }

  lemma {:induction false} NonePast<T>(s: seq<Row<T>>, cursor: int)
    requires forall x :: x in s ==> x.id <= cursor
    ensures UpTo(s, cursor) == s && After(s, cursor) == []
  {
    if s == [] {
    } else {
      assert s[0] in s;
      NonePast(s[1..], cursor);
      assert s == [s[0]] + s[1..];
    }
  }

  /** On an ascending ledger a cursor cuts it into a prefix and a suffix. */
  lemma {:induction false} CursorSplits<T>(s: seq<Row<T>>, cursor: int)
    requires Ascending(s)
    ensures s == UpTo(s, cursor) + After(s, cursor)
  {
    if s == [] {
    } else if s[0].id <= cursor {
      var rest := s[1..];
      AscendingTail(s);
      hide Ascending;
      CursorSplits(rest, cursor);
      assert UpTo(s, cursor) == [s[0]] + UpTo(rest, cursor) && After(s, cursor) == After(rest, cursor);
      hide UpTo, After;
      assert [s[0]] + (UpTo(rest, cursor) + After(rest, cursor)) == ([s[0]] + UpTo(rest, cursor)) + After(rest, cursor);
    } else {
      assert forall x :: x in s ==> x.id >= s[0].id;
      hide Ascending;
      AllPast(s, cursor);
    }
  }

  lemma {:induction false} CursorHalves<T>(s: seq<Row<T>>, cursor: int)
    requires Ascending(s)
    ensures Ascending(UpTo(s, cursor)) && Ascending(After(s, cursor))
  {
    CursorSplits(s, cursor);
    var u, v := UpTo(s, cursor), After(s, cursor);
    assert forall i :: 0 <= i < |u| ==> s[i] == u[i];
    forall i, j | 0 <= i < j < |v| ensures v[i].id < v[j].id {
      assert v[i] == s[|u| + i] && v[j] == s[|u| + j];
    }
  }

  lemma {:induction false} CursorOrder<T>(s: seq<Row<T>>, cursor: int)
    ensures Below(UpTo(s, cursor), After(s, cursor))
  {
    var u, v := UpTo(s, cursor), After(s, cursor);
    forall i, j | 0 <= i < |u| && 0 <= j < |v| ensures u[i].id < v[j].id {
      CursorMember(s, cursor, u[i]);
      CursorMember(s, cursor, v[j]);
    }
  }

  lemma {:induction false} TailIsLast<T>(s: seq<Row<T>>, x: Row<T>)
    requires Ascending(s) && x in s
    ensures x.id <= TailId(s)
  {
  }

  /** Two pieces either side of a cursor are the rows up to it and the rows past it. */
  lemma {:induction false} CutIsCursor<T>(a: seq<Row<T>>, b: seq<Row<T>>, cursor: int)
    requires forall x :: x in a ==> x.id <= cursor
    requires forall x :: x in b ==> x.id > cursor
    ensures UpTo(a + b, cursor) == a && After(a + b, cursor) == b
  {
    AfterAppend(a, b, cursor);
    NonePast(a, cursor);
    AllPast(b, cursor);
  }

  lemma {:induction false} AfterAppend<T>(s: seq<Row<T>>, t: seq<Row<T>>, cursor: int)
    ensures After(s + t, cursor) == After(s, cursor) + After(t, cursor)
    ensures UpTo(s + t, cursor) == UpTo(s, cursor) + UpTo(t, cursor)
  {
    if s == [] {
      assert s + t == t;
    } else {
      var rest := s[1..];
      assert (s + t)[1..] == rest + t && (s + t)[0] == s[0];
      AfterAppend(rest, t, cursor);
      var low, high := if s[0].id <= cursor then [s[0]] else [], if s[0].id > cursor then [s[0]] else [];
      assert low + (UpTo(rest, cursor) + UpTo(t, cursor)) == (low + UpTo(rest, cursor)) + UpTo(t, cursor);
      assert high + (After(rest, cursor) + After(t, cursor)) == (high + After(rest, cursor)) + After(t, cursor);
    }
  }

  /** Moving the cursor on from `low` to `high` keeps only what lies past `high`. */
  lemma {:induction false} AfterAfter<T>(s: seq<Row<T>>, low: int, high: int)
    requires low <= high
    ensures After(After(s, low), high) == After(s, high)
  {
    if s == [] {
    } else {
      AfterAfter(s[1..], low, high);
      AfterAppend(if s[0].id > low then [s[0]] else [], After(s[1..], low), high);
    }
  }

  /** A page of rows taken from just past a cursor, once absorbed, extends what lies at or below it. */
  lemma {:induction false} AbsorbPage<T>(s: seq<Row<T>>, cursor: int, n: nat)
    requires Ascending(s) && 0 < n <= |After(s, cursor)|
    ensures var last := After(s, cursor)[n - 1].id;
      && last > cursor
      && UpTo(s, last) == UpTo(s, cursor) + After(s, cursor)[..n]
      && After(s, last) == After(s, cursor)[n..]
  {
    var done, rest := UpTo(s, cursor), After(s, cursor);
    CursorSplits(s, cursor);
    CursorHalves(s, cursor);
    CursorMember(s, cursor, rest[n - 1]);
    forall x | x in done + rest[..n] ensures x.id <= rest[n - 1].id {
      CursorMember(s, cursor, x);
    }
    assert s == (done + rest[..n]) + rest[n..];
    CutIsCursor(done + rest[..n], rest[n..], rest[n - 1].id);
  }

  /** Whether `n` pages of `limit` cover what is left, one page on. */
  lemma {:induction false} PageArithmetic(left: nat, limit: nat, n: nat)
    requires n > 0
    ensures left - (if limit <= left then limit else left) <= (n - 1) * limit <==> left <= n * limit
  {
    assert n * limit == (n - 1) * limit + limit;
  }
}
