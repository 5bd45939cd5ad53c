/** Text made of rows: joining rows with line breaks, cutting a row-major
    string into rows, and the inverse of joining. */
module Lines {
  import Arith

  /** Rows separated by a single '\n', with no break after the last row. */
  function JoinLines(rows: seq<string>): string
  {
    if |rows| == 0 then ""
    else if |rows| == 1 then rows[0]
    else JoinLines(rows[..|rows| - 1]) + "\n" + rows[|rows| - 1]
  }

  /** Joining one more row: a break, then the row. */
  lemma JoinPrefix(rows: seq<string>, i: nat)
    requires i < |rows|
    ensures JoinLines(rows[..i + 1]) ==
      if i == 0 then rows[0] else JoinLines(rows[..i]) + "\n" + rows[i]
  {
    assert rows[..i + 1][..i] == rows[..i];
  }

  function Concat(rows: seq<string>): string
  {
    if |rows| == 0 then "" else rows[0] + Concat(rows[1..])
  }

  function RemoveNewlines(s: string): string
  {
    if |s| == 0 then ""
    else (if s[0] == '\n' then "" else [s[0]]) + RemoveNewlines(s[1..])
  }

  /** A `w * h` long string cut into `h` consecutive rows of `w` characters. */
  function Chunks(pat: string, w: nat, h: nat): (rows: seq<string>)
    requires |pat| == w * h
    ensures |rows| == h
  {
    if h == 0 then []
    else
      Arith.MulMono(1, h, w);
      [pat[..w]] + Chunks(pat[w..], w, h - 1)
  }

  predicate NoBreaks(rows: seq<string>)
  {
    forall k, c | 0 <= k < |rows| && 0 <= c < |rows[k]| :: rows[k][c] != '\n'
  }

  lemma {:induction false} RemoveNewlinesAppend(a: string, b: string)
    ensures RemoveNewlines(a + b) == RemoveNewlines(a) + RemoveNewlines(b)
  {
    if |a| == 0 {
      assert a + b == b;
    } else {
      assert (a + b)[1..] == a[1..] + b;
      RemoveNewlinesAppend(a[1..], b);
    }
  }

  lemma {:induction false} RemoveNewlinesNone(s: string)
    requires forall c | 0 <= c < |s| :: s[c] != '\n'
    ensures RemoveNewlines(s) == s
  {
    if |s| != 0 {
      RemoveNewlinesNone(s[1..]);
    }
  }

  lemma {:induction false} ConcatSnoc(rows: seq<string>, last: string)
    ensures Concat(rows + [last]) == Concat(rows) + last
  {
    if |rows| != 0 {
      assert (rows + [last])[1..] == rows[1..] + [last];
      ConcatSnoc(rows[1..], last);
    }
  }

  /** Deleting the line breaks around one break between two texts. */
  lemma RemoveNewlinesBreak(a: string, last: string)
    requires forall c | 0 <= c < |last| :: last[c] != '\n'
    ensures RemoveNewlines(a + "\n" + last) == RemoveNewlines(a) + last
  {
    var nl := "\n";
    assert RemoveNewlines(nl) == "" by {
      assert nl[1..] == "";
    }
    RemoveNewlinesAppend(a, nl);
    RemoveNewlinesAppend(a + nl, last);
    RemoveNewlinesNone(last);
  }

  /** Deleting the line breaks of joined rows gives their concatenation. */
  lemma {:induction false} RemoveNewlinesJoin(rows: seq<string>)
    requires NoBreaks(rows)
    ensures RemoveNewlines(JoinLines(rows)) == Concat(rows)
  {
    if |rows| == 1 {
      RemoveNewlinesNone(rows[0]);
      assert Concat(rows) == rows[0] + Concat([]);
    } else if |rows| > 1 {
      var init, last := rows[..|rows| - 1], rows[|rows| - 1];
      assert rows == init + [last];
      RemoveNewlinesJoin(init);
      RemoveNewlinesBreak(JoinLines(init), last);
      ConcatSnoc(init, last);
    }
  }

  /** Row `i` of the cut string starts at index `i * w`. */
  lemma {:induction false} ChunkAt(pat: string, w: nat, h: nat, i: nat)
    requires |pat| == w * h && i < h
    ensures i * w + w <= |pat|
    ensures Chunks(pat, w, h)[i] == pat[i * w .. i * w + w]
  {
    Arith.MulMono(i + 1, h, w);
    Arith.MulSucc(i, w);
    if i > 0 {
      Arith.MulMono(1, h, w);
      ChunkAt(pat[w..], w, h - 1, i - 1);
      var q := (i - 1) * w;
      Arith.MulSucc(i - 1, w);
      assert pat[w..][q .. q + w] == pat[q + w .. q + w + w];
    }
  }

  /** Character `j` of row `i` of the cut string is character `i * w + j`. */
  lemma ChunkCell(pat: string, w: nat, h: nat, i: nat, j: nat)
    requires |pat| == w * h && i < h && j < w
    ensures |Chunks(pat, w, h)[i]| == w
    ensures i * w + j < |pat| && Chunks(pat, w, h)[i][j] == pat[i * w + j]
  {
    ChunkAt(pat, w, h, i);
  }

  /** Row `i` of the cut string, character by character. */
  lemma ChunkCells(pat: string, w: nat, h: nat, i: nat)
    requires |pat| == w * h && i < h
    ensures |Chunks(pat, w, h)[i]| == w
    ensures forall j | 0 <= j < w :: i * w + j < |pat| && Chunks(pat, w, h)[i][j] == pat[i * w + j]
  {
    ChunkAt(pat, w, h, i);
  }

  /** Cutting a string into rows and concatenating them gives it back. */
  lemma {:induction false} ConcatChunks(pat: string, w: nat, h: nat)
    requires |pat| == w * h
    ensures Concat(Chunks(pat, w, h)) == pat
  {
    if h > 0 {
      Arith.MulMono(1, h, w);
      ConcatChunks(pat[w..], w, h - 1);
      assert Chunks(pat, w, h)[1..] == Chunks(pat[w..], w, h - 1);
    }
  }

  predicate Uniform(rows: seq<string>, n: nat)
  {
    forall k | 0 <= k < |rows| :: |rows[k]| == n
  }

  /** Rows that all have `n` characters join into `|rows| * (n + 1) - 1` characters. */
  lemma {:induction false} JoinLength(rows: seq<string>, n: nat)
    requires |rows| > 0 && Uniform(rows, n)
    ensures |JoinLines(rows)| == |rows| * (n + 1) - 1
  {
    if |rows| > 1 {
      var k := |rows|;
      JoinLength(rows[..k - 1], n);
      assert (k - 1) * (n + 1) == k * (n + 1) - (n + 1);
    }
  }

  /** Character `j` of row `i` sits at index `i * (n + 1) + j` of the joined text. */
  lemma {:induction false} JoinCell(rows: seq<string>, n: nat, i: nat, j: nat)
    requires Uniform(rows, n) && i < |rows| && j < n
    ensures i * (n + 1) + j < |JoinLines(rows)|
    ensures JoinLines(rows)[i * (n + 1) + j] == rows[i][j]
  {
    JoinLength(rows, n);
    var k := |rows|;
    if k > 1 {
      var init := rows[..k - 1];
      JoinLength(init, n);
      assert (k - 1) * (n + 1) == k * (n + 1) - (n + 1);
      if i < k - 1 {
        JoinCell(init, n, i, j);
        Arith.MulMono(i + 1, k - 1, n + 1);
      } else {
        assert i * (n + 1) == |JoinLines(init)| + 1;
      }
    }
  }

  /** Row `i`, when it is not the last, is followed by a break at index `i * (n + 1) + n`. */
  lemma {:induction false} JoinBreak(rows: seq<string>, n: nat, i: nat)
    requires Uniform(rows, n) && i + 1 < |rows|
    ensures i * (n + 1) + n < |JoinLines(rows)|
    ensures JoinLines(rows)[i * (n + 1) + n] == '\n'
  {
    JoinLength(rows, n);
    var k := |rows|;
    var init := rows[..k - 1];
    JoinLength(init, n);
    assert (k - 1) * (n + 1) == k * (n + 1) - (n + 1);
    if i + 1 < k - 1 {
      JoinBreak(init, n, i);
      Arith.MulMono(i + 1, k - 1, n + 1);
    } else {
      assert i * (n + 1) + n == |JoinLines(init)|;
    }
  }
}
