/**
 * The ordering step of the usage summary: the entries of the counts map are
 * sorted by the comparator `Long.compare(b.count, a.count)`, i.e. by
 * descending call count.  The comparator looks at counts only, so the order
 * of two keys with the same count is left open; nothing below promises one.
 */
module Ranking {

  /** One entry of the counts map as the summary streams it. */
  datatype Row = Row(key: string, count: nat)

  /** Counts never increase along the sequence. */
  ghost predicate NonIncreasing(rows: seq<Row>)
  {
    forall p, q :: 0 <= p < q < |rows| ==> rows[p].count >= rows[q].count
  }

  /** No key occurs in two rows. */
  ghost predicate DistinctKeys(rows: seq<Row>)
  {
    forall p, q :: 0 <= p < q < |rows| ==> rows[p].key != rows[q].key
  }

  /** The keys the rows mention. */
  ghost function KeysOf(rows: seq<Row>): set<string>
  {
    set r | r in rows :: r.key
  }

  /** A row no smaller than the head of a non-increasing sequence can be put
      in front of it. */
  lemma ConsKeepsOrder(x: Row, rows: seq<Row>)
    requires NonIncreasing(rows) && (|rows| > 0 ==> rows[0].count <= x.count)
    ensures NonIncreasing([x] + rows)
  {
    var out := [x] + rows;
    forall p, q | 0 <= p < q < |out|
      ensures out[p].count >= out[q].count
    {
      if p == 0 {
        assert out[q] == rows[q - 1];
      }
    }
  }

  /** Dropping the head of a non-increasing sequence leaves one, and the
      head is no smaller than what follows it. */
  lemma DropHeadKeepsOrder(rows: seq<Row>)
    requires NonIncreasing(rows) && |rows| > 0
    ensures NonIncreasing(rows[1..])
    ensures |rows| > 1 ==> rows[1].count <= rows[0].count
  {
    var tail := rows[1..];
    forall p, q | 0 <= p < q < |tail|
      ensures tail[p].count >= tail[q].count
    {
      assert tail[p] == rows[p + 1] && tail[q] == rows[q + 1];
    }
  }

  /** Inserts `r` in front of the first row whose count is not larger. */
  function Insert(r: Row, rows: seq<Row>): (out: seq<Row>)
    ensures multiset(out) == multiset(rows) + multiset{r}
    ensures |rows| > 0 ==> out[0] == r || out[0] == rows[0]
    ensures NonIncreasing(rows) ==> NonIncreasing(out)
  {
    if rows == [] then [r]
    else if r.count >= rows[0].count then
      assert NonIncreasing(rows) ==> NonIncreasing([r] + rows) by {
        if NonIncreasing(rows) { ConsKeepsOrder(r, rows); }
      }
      [r] + rows
    else
      var tail := Insert(r, rows[1..]);
      assert rows == [rows[0]] + rows[1..];
      assert NonIncreasing(rows) ==> NonIncreasing([rows[0]] + tail) by {
        if NonIncreasing(rows) {
          DropHeadKeepsOrder(rows);
          ConsKeepsOrder(rows[0], tail);
        }
      }
      [rows[0]] + tail
  }

  /** The stream sort of the summary, by descending count. */
  function SortByCount(rows: seq<Row>): (sorted: seq<Row>)
    ensures multiset(sorted) == multiset(rows)
    ensures NonIncreasing(sorted)
  {
    if rows == [] then []
    else
      assert rows == [rows[0]] + rows[1..];
      Insert(rows[0], SortByCount(rows[1..]))
  }

  /** Appending a row whose key is new keeps the keys distinct and adds
      exactly that key. */
  lemma AppendNewKey(rows: seq<Row>, x: Row)
    requires DistinctKeys(rows) && x.key !in KeysOf(rows)
    ensures DistinctKeys(rows + [x])
    ensures KeysOf(rows + [x]) == KeysOf(rows) + {x.key}
    ensures forall r :: r in rows + [x] <==> r in rows || r == x
  {
    var out := rows + [x];
    forall p, q | 0 <= p < q < |out|
      ensures out[p].key != out[q].key
    {
      if q == |rows| {
        assert out[p] in rows;
      } else {
        assert out[p] == rows[p] && out[q] == rows[q];
      }
    }
  }

  /** Two positions holding the same row make it occur twice. */
  lemma {:induction false} RepeatedRow<T>(s: seq<T>, p: int, q: int)
    requires 0 <= p < q < |s| && s[p] == s[q]
    ensures multiset(s)[s[p]] >= 2
  {
    assert s == s[..q] + [s[q]] + s[q + 1..];
    assert s[p] in s[..q];
  }

  /** With distinct keys no row occurs twice. */
  lemma {:induction false} DistinctRowsOnce(rows: seq<Row>, x: Row)
    requires DistinctKeys(rows)
    ensures multiset(rows)[x] <= 1
  {
    if rows != [] {
      var tail := rows[1..];
      assert rows == [rows[0]] + tail;
      assert DistinctKeys(tail);
      DistinctRowsOnce(tail, x);
      if x == rows[0] {
        assert x !in tail;
      }
    }
  }

  /** Rearranging rows with distinct keys keeps their keys distinct. */
  lemma {:induction false} RearrangedDistinct(rows: seq<Row>, perm: seq<Row>)
    requires DistinctKeys(rows) && multiset(perm) == multiset(rows)
    ensures DistinctKeys(perm)
  {
    forall p, q | 0 <= p < q < |perm|
      ensures perm[p].key != perm[q].key
    {
      if perm[p].key == perm[q].key {
        assert perm[p] in multiset(rows) && perm[q] in multiset(rows);
        var i :| 0 <= i < |rows| && rows[i] == perm[p];
        var j :| 0 <= j < |rows| && rows[j] == perm[q];
        assert i == j;
        RepeatedRow(perm, p, q);
        DistinctRowsOnce(rows, perm[p]);
        assert false;
      }
    }
  }

  /** Sorting neither drops nor repeats a row: the sorted rows are the same
      rows, so they mention the same keys, each once, with the same counts. */
  lemma SortKeepsKeys(rows: seq<Row>)
    requires DistinctKeys(rows)
    ensures DistinctKeys(SortByCount(rows))
    ensures KeysOf(SortByCount(rows)) == KeysOf(rows)
    ensures forall r :: r in SortByCount(rows) <==> r in rows
  {
    var sorted := SortByCount(rows);
    RearrangedDistinct(rows, sorted);
    assert forall r :: r in sorted <==> r in multiset(sorted);
  }
}
