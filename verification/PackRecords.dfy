/**
 Little-endian records, tables of records and tables of C strings, with their readers.
 */
module PackRecords {
  import opened Basics

  // ----- Numbers -----

  function Pow256(k: nat): (p: nat)
    ensures p >= 1
  {
    if k == 0 then 1 else 256 * Pow256(k - 1)
  }

  function LE(x: nat, k: nat): (b: Bytes)
    requires x < Pow256(k)
    ensures |b| == k
  {
    if k == 0 then [] else [x % 256] + LE(x / 256, k - 1)
  }

  function UnLE(b: Bytes): nat {
    if b == [] then 0 else (b[0] as int) + 256 * UnLE(b[1..])
  }

  lemma {:induction false} NumberRoundTrip(x: nat, k: nat)
    requires x < Pow256(k)
    ensures UnLE(LE(x, k)) == x
  {
    if k > 0 {
      NumberRoundTrip(x / 256, k - 1);
      assert LE(x, k)[1..] == LE(x / 256, k - 1);
    }
  }

  // ----- Records: struct.pack and its reader -----

  function Sum(ws: seq<nat>): nat {
    if ws == [] then 0 else ws[0] + Sum(ws[1..])
  }

  lemma {:induction false} SumConcat(ws: seq<nat>, vs: seq<nat>)
    ensures Sum(ws + vs) == Sum(ws) + Sum(vs)
  {
    if ws == [] {
      assert ws + vs == vs;
    } else {
      assert (ws + vs)[1..] == ws[1..] + vs;
      SumConcat(ws[1..], vs);
    }
  }

  /** The values fit their fields; struct.pack raises an error otherwise. */
  predicate Fit(ws: seq<nat>, vs: seq<nat>) {
    |ws| == |vs| && forall i | 0 <= i < |ws| :: vs[i] < Pow256(ws[i])
  }

  function Pack(ws: seq<nat>, vs: seq<nat>): (b: Bytes)
    requires Fit(ws, vs)
    ensures |b| == Sum(ws)
  {
    if ws == [] then [] else LE(vs[0], ws[0]) + Pack(ws[1..], vs[1..])
  }

  function Unpack(ws: seq<nat>, b: Bytes): seq<nat>
    requires |b| == Sum(ws)
  {
    if ws == [] then [] else [UnLE(b[..ws[0]])] + Unpack(ws[1..], b[ws[0]..])
  }

  lemma {:induction false} RecordRoundTrip(ws: seq<nat>, vs: seq<nat>)
    requires Fit(ws, vs)
    ensures Unpack(ws, Pack(ws, vs)) == vs
  {
    if ws != [] {
      NumberRoundTrip(vs[0], ws[0]);
      RecordRoundTrip(ws[1..], vs[1..]);
      var b := Pack(ws, vs);
      assert b[..ws[0]] == LE(vs[0], ws[0]) && b[ws[0]..] == Pack(ws[1..], vs[1..]);
    }
  }

  // ----- Tables of records -----

  predicate AllFit(ws: seq<nat>, rows: seq<seq<nat>>) {
    forall i | 0 <= i < |rows| :: Fit(ws, rows[i])
  }

  function Table(ws: seq<nat>, rows: seq<seq<nat>>): (b: Bytes)
    requires AllFit(ws, rows)
  {
    if rows == [] then [] else Pack(ws, rows[0]) + Table(ws, rows[1..])
  }

  /** Read n records at o, or fewer where the bytes end before. */
  function ReadTable(ws: seq<nat>, b: Bytes, o: nat, n: nat): (r: seq<seq<nat>>)
    requires o <= |b|
    decreases n
  {
    if n == 0 || o + Sum(ws) > |b| then []
    else [Unpack(ws, b[o..o + Sum(ws)])] + ReadTable(ws, b, o + Sum(ws), n - 1)
  }

  lemma {:induction false} TableFirst(ws: seq<nat>, rows: seq<seq<nat>>)
    requires AllFit(ws, rows) && rows != []
    ensures AllFit(ws, rows[1..]) && Fit(ws, rows[0]) && Table(ws, rows) == Pack(ws, rows[0]) + Table(ws, rows[1..])
  {
  }

  lemma {:induction false} TableNone(ws: seq<nat>)
    ensures AllFit(ws, []) && Table(ws, []) == []
  {
  }

  lemma {:induction false} ReadFirst(ws: seq<nat>, b: Bytes, o: nat, n: nat)
    requires 0 < n && o + Sum(ws) <= |b|
    ensures ReadTable(ws, b, o, n) == [Unpack(ws, b[o..o + Sum(ws)])] + ReadTable(ws, b, o + Sum(ws), n - 1)
  {
  }

  lemma {:induction false} SliceParts(b: Bytes, o: nat, x: Bytes, y: Bytes)
    requires o + |x| + |y| <= |b| && b[o..o + |x| + |y|] == x + y
    ensures b[o..o + |x|] == x && b[o + |x|..o + |x| + |y|] == y
  {
    var s := b[o..o + |x| + |y|];
    assert b[o..o + |x|] == s[..|x|] && b[o + |x|..o + |x| + |y|] == s[|x|..];
  }

  /** A table of records is read back wherever it stands. */
  lemma {:induction false} ReadNext(ws: seq<nat>, rows: seq<seq<nat>>, b: Bytes, o: nat)
    requires rows != [] && o + Sum(ws) <= |b| && Unpack(ws, b[o..o + Sum(ws)]) == rows[0]
    requires ReadTable(ws, b, o + Sum(ws), |rows| - 1) == rows[1..]
    ensures ReadTable(ws, b, o, |rows|) == rows
  {
    hide Unpack, Sum, ReadTable;
    ReadFirst(ws, b, o, |rows|);
    assert [rows[0]] + rows[1..] == rows;
  }

  lemma {:induction false} ReadNone(ws: seq<nat>, b: Bytes, o: nat)
    requires o <= |b|
    ensures ReadTable(ws, b, o, 0) == []
  {
  }

  /** A packed table reads back wherever it stands. */
  lemma {:induction false} TableAt(ws: seq<nat>, rows: seq<seq<nat>>, b: Bytes, o: nat)
    requires AllFit(ws, rows) && o + |Table(ws, rows)| <= |b| && b[o..o + |Table(ws, rows)|] == Table(ws, rows)
    ensures ReadTable(ws, b, o, |rows|) == rows
    decreases rows
  {
    hide Table, AllFit, Fit, Pack, Unpack, ReadTable, Sum;
    if rows == [] {
      ReadNone(ws, b, o);
    } else {
      TableFirst(ws, rows);
      var one, rest := Pack(ws, rows[0]), Table(ws, rows[1..]);
      RecordRoundTrip(ws, rows[0]);
      SliceParts(b, o, one, rest);
      TableAt(ws, rows[1..], b, o + |one|);
      ReadNext(ws, rows, b, o);
    }
  }

  lemma {:induction false} TableRoundTrip(ws: seq<nat>, rows: seq<seq<nat>>, pre: Bytes, post: Bytes)
    requires AllFit(ws, rows)
    ensures ReadTable(ws, pre + Table(ws, rows) + post, |pre|, |rows|) == rows
  {
    hide Table, AllFit, ReadTable;
    TableAt(ws, rows, pre + Table(ws, rows) + post, |pre|);
  }

  lemma {:induction false} TableSnoc(ws: seq<nat>, rows: seq<seq<nat>>, row: seq<nat>)
    requires AllFit(ws, rows) && Fit(ws, row)
    ensures AllFit(ws, rows + [row]) && Table(ws, rows + [row]) == Table(ws, rows) + Pack(ws, row)
  {
    assert AllFit(ws, rows + [row]);
    hide AllFit, Fit, Pack, Table;
    TableFirst(ws, rows + [row]);
    TableNone(ws);
    if rows == [] {
      assert rows + [row] == [row] && [row][1..] == rows;
    } else {
      TableFirst(ws, rows);
      TableSnoc(ws, rows[1..], row);
      assert (rows + [row])[1..] == rows[1..] + [row];
    }
  }

  lemma {:induction false} TableSize(ws: seq<nat>, rows: seq<seq<nat>>)
    requires AllFit(ws, rows)
    ensures |Table(ws, rows)| == |rows| * Sum(ws)
  {
    hide AllFit, Fit, Pack, Table, Sum;
    if rows == [] {
      TableNone(ws);
    } else {
      TableFirst(ws, rows);
      TableSize(ws, rows[1..]);
      assert |rows| * Sum(ws) == Sum(ws) + (|rows| - 1) * Sum(ws);
    }
  }

  // ----- Tables of C strings -----

  predicate Text(s: Bytes) {
    0 !in s
  }

  predicate AllText(ss: seq<Bytes>) {
    forall i | 0 <= i < |ss| :: Text(ss[i])
  }

  function Strings(ss: seq<Bytes>): Bytes {
    if ss == [] then [] else ss[0] + [0] + Strings(ss[1..])
  }

  /** Where each string starts, from offset o on. */
  function Starts(ss: seq<Bytes>, o: nat): (r: seq<nat>)
    ensures |r| == |ss|
  {
    if ss == [] then [] else [o] + Starts(ss[1..], o + |ss[0]| + 1)
  }

  /** The bytes from o up to the next NUL. */
  function CString(b: Bytes, o: nat): Bytes
    requires o <= |b|
    decreases |b| - o
  {
    if o == |b| || b[o] == 0 then [] else [b[o]] + CString(b, o + 1)
  }

  lemma {:induction false} CStringIs(pre: Bytes, s: Bytes, post: Bytes)
    requires Text(s)
    ensures CString(pre + s + [0] + post, |pre|) == s
    decreases s
  {
    var b := pre + s + [0] + post;
    if s != [] {
      assert b == (pre + [s[0]]) + s[1..] + [0] + post && b[|pre|] == s[0];
      CStringIs(pre + [s[0]], s[1..], post);
    }
  }

  lemma {:induction false} StringsFirst(ss: seq<Bytes>, o: nat)
    requires ss != []
    ensures Strings(ss) == ss[0] + [0] + Strings(ss[1..]) && Starts(ss, o) == [o] + Starts(ss[1..], o + |ss[0]| + 1)
  {
  }

  /** Every string of a table is read back at its start. */
  lemma {:induction false} StringsRoundTrip(pre: Bytes, skip: Bytes, ss: seq<Bytes>, post: Bytes, i: nat)
    requires AllText(ss) && i < |ss|
    ensures var b := pre + skip + Strings(ss) + post; var o := |pre| + Starts(ss, |skip|)[i];
            o <= |b| && CString(b, o) == ss[i]
    decreases i
  {
    hide Strings, Starts, CString;
    StringsFirst(ss, |skip|);
    var b, rest := pre + skip + Strings(ss) + post, Strings(ss[1..]);
    if i == 0 {
      assert b == (pre + skip) + ss[0] + [0] + (rest + post);
      CStringIs(pre + skip, ss[0], rest + post);
    } else {
      var more := skip + ss[0] + [0];
      assert b == pre + more + rest + post;
      StringsRoundTrip(pre, more, ss[1..], post, i - 1);
    }
  }

  lemma {:induction false} StringsConcat(ss: seq<Bytes>, ts: seq<Bytes>, o: nat)
    ensures Strings(ss + ts) == Strings(ss) + Strings(ts)
    ensures Starts(ss + ts, o) == Starts(ss, o) + Starts(ts, o + |Strings(ss)|)
    decreases ss
  {
    if ss == [] {
      assert ss + ts == ts;
    } else {
      hide Strings, Starts;
      assert (ss + ts)[1..] == ss[1..] + ts && (ss + ts)[0] == ss[0];
      StringsFirst(ss, o);
      StringsFirst(ss + ts, o);
      StringsConcat(ss[1..], ts, o + |ss[0]| + 1);
    }
  }
}
