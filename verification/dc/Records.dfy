/**
 * Records in files: four-byte words, a measure taking two of them.  Views of different
 * widths share one view file, so a view is found again by its byte offset and its number of rows,
 * whatever was written before and after it.
 */
module Records {
  import opened Rows
  import opened Arith

  datatype Word = Dim(v: nat) | Meas(m: int) | MeasRest

  function EncodeMeasures(m: seq<int>): (w: seq<Word>)
    ensures |w| == 2 * |m|
  {
    if m == [] then [] else [Meas(m[0]), MeasRest] + EncodeMeasures(m[1..])
  }

  function EncodeKey(k: Key): (w: seq<Word>)
    ensures |w| == |k|
  {
    seq(|k|, i requires 0 <= i < |k| => Dim(k[i]))
  }

  /** A record as fwrite lays it out: measures first, then dimensions. */
  function Encode(r: Row): (w: seq<Word>)
    ensures |w| == 2 * |r.meas| + |r.key|
  {
    EncodeMeasures(r.meas) + EncodeKey(r.key)
  }

  function DecodeMeasures(w: seq<Word>, nm: nat): (m: seq<int>)
    requires 2 * nm <= |w|
    ensures |m| == nm
  {
    if nm == 0 then []
    else [if w[0].Meas? then w[0].m else 0] + DecodeMeasures(w[2..], nm - 1)
  }

  function DecodeKey(w: seq<Word>): Key {
    seq(|w|, i requires 0 <= i < |w| => if w[i].Dim? then w[i].v else 0)
  }

  function Decode(w: seq<Word>, nm: nat): Row
    requires 2 * nm <= |w|
  {
    Row(DecodeMeasures(w, nm), DecodeKey(w[2*nm..]))
  }

  lemma {:induction false} DecodeEncodeMeasures(m: seq<int>, tail: seq<Word>)
    ensures DecodeMeasures(EncodeMeasures(m) + tail, |m|) == m
  {
    var w := EncodeMeasures(m) + tail;
    if m != [] {
      assert w[0] == Meas(m[0]);
      assert w[2..] == EncodeMeasures(m[1..]) + tail;
      DecodeEncodeMeasures(m[1..], tail);
    }
  }

  /** Reading a record back gives the row that was written. */
  lemma DecodeEncode(r: Row)
    ensures Decode(Encode(r), |r.meas|) == r
  {
    DecodeEncodeMeasures(r.meas, EncodeKey(r.key));
    assert Encode(r)[2*|r.meas|..] == EncodeKey(r.key);
    assert DecodeKey(EncodeKey(r.key)) == r.key;
  }

  /** The words of a record: two for every measure, in order, and then one for every dimension. */
  lemma EncodeLayout(r: Row)
    ensures |Encode(r)| == 2 * |r.meas| + |r.key|
    ensures forall i :: 0 <= i < |r.meas| ==> Encode(r)[2 * i] == Meas(r.meas[i]) && Encode(r)[2 * i + 1] == MeasRest
    ensures forall i :: 0 <= i < |r.key| ==> Encode(r)[2 * |r.meas| + i] == Dim(r.key[i])
  {
    forall i | 0 <= i < |r.meas| ensures Encode(r)[2 * i] == Meas(r.meas[i]) && Encode(r)[2 * i + 1] == MeasRest {
      MeasureWords(r.meas, i);
    }
  }

  lemma {:induction false} MeasureWords(m: seq<int>, i: nat)
    requires i < |m|
    ensures EncodeMeasures(m)[2 * i] == Meas(m[i]) && EncodeMeasures(m)[2 * i + 1] == MeasRest
  {
    if i > 0 { MeasureWords(m[1..], i - 1); }
  }

  function EncodeAll(rows: seq<Row>): seq<Word> {
    if rows == [] then []
    else EncodeAll(rows[..|rows|-1]) + Encode(rows[|rows|-1])
  }

  lemma EncodeSnoc(rows: seq<Row>, r: Row)
    ensures EncodeAll(rows + [r]) == EncodeAll(rows) + Encode(r)
  {
    assert (rows + [r])[..|rows|] == rows;
  }

  lemma AppendRecord(base: seq<Word>, rows: seq<Row>, r: Row)
    ensures base + EncodeAll(rows) + Encode(r) == base + EncodeAll(rows + [r])
  {
    EncodeSnoc(rows, r);
  }

  ghost predicate Uniform(rows: seq<Row>, nd: nat, nm: nat) {
    KeyLength(rows, nd) && Shaped(rows, nm)
  }

  /** Words in a record of nd dimensions and nm measures (GetRecSize / 4). */
  function Width(nd: nat, nm: nat): nat {
    nd + 2 * nm
  }

  lemma {:induction false} EncodeAllLength(rows: seq<Row>, nd: nat, nm: nat)
    requires Uniform(rows, nd, nm)
    ensures |EncodeAll(rows)| == Times(|rows|, Width(nd, nm))
  {
    if rows != [] {
      EncodeAllLength(rows[..|rows|-1], nd, nm);
    }
  }

  /** The k-th record sits k widths into the encoding. */
  lemma {:induction false} RecordAt(rows: seq<Row>, nd: nat, nm: nat, k: nat)
    requires Uniform(rows, nd, nm) && k < |rows|
    ensures Times(k, Width(nd, nm)) + Width(nd, nm) <= |EncodeAll(rows)|
    ensures EncodeAll(rows)[Times(k, Width(nd, nm))..Times(k, Width(nd, nm)) + Width(nd, nm)] == Encode(rows[k])
  {
    hide EncodeAll; hide Encode; hide Times;
    var n, w := |rows| - 1, Width(nd, nm);
    var front := rows[..n];
    LastRecord(rows);
    EncodeAllLength(front, nd, nm);
    var a := Times(k, w);
    if k < n {
      RecordAt(front, nd, nm, k);
      assert front[k] == rows[k];
      assert EncodeAll(rows)[a..a + w] == EncodeAll(front)[a..a + w];
    } else {
      RecordLength(rows, nd, nm, n);
      assert EncodeAll(rows)[a..a + w] == Encode(rows[n]);
    }
  }

  lemma LastRecord(rows: seq<Row>)
    requires rows != []
    ensures EncodeAll(rows) == EncodeAll(rows[..|rows| - 1]) + Encode(rows[|rows| - 1])
  {
  }

  lemma RecordLength(rows: seq<Row>, nd: nat, nm: nat, k: nat)
    requires Uniform(rows, nd, nm) && k < |rows|
    ensures |Encode(rows[k])| == Width(nd, nm)
  {
  }

  /** The rows found at a byte offset of a file. */
  ghost predicate StoredAt(file: seq<Word>, offset: nat, rows: seq<Row>) {
    && offset % 4 == 0
    && offset / 4 + |EncodeAll(rows)| <= |file|
    && file[offset / 4..offset / 4 + |EncodeAll(rows)|] == EncodeAll(rows)
  }

  /** Appending to a file moves nothing. */
  lemma StoredAppend(file: seq<Word>, more: seq<Word>, offset: nat, rows: seq<Row>)
    requires StoredAt(file, offset, rows)
    ensures StoredAt(file + more, offset, rows)
  {
    var a, n := offset / 4, |EncodeAll(rows)|;
    assert (file + more)[a..a+n] == file[a..a+n];
  }

  lemma StoredAtEnd(file: seq<Word>, rows: seq<Row>)
    ensures StoredAt(file + EncodeAll(rows), 4 * |file|, rows)
  {
    assert (file + EncodeAll(rows))[|file|..] == EncodeAll(rows);
  }

  lemma SliceOfSlice<T>(s: seq<T>, base: nat, n: nat, t: nat, w: nat)
    requires base + n <= |s| && t + w <= n
    ensures s[base + t..base + t + w] == s[base..base + n][t..t + w]
  {
    var x, y := s[base + t..base + t + w], s[base..base + n][t..t + w];
    assert forall j :: 0 <= j < w ==> x[j] == s[base + t + j] == y[j];
  }

  /** fread of the k-th record of a stored view yields its k-th row. */
  lemma ReadRecord(file: seq<Word>, offset: nat, rows: seq<Row>, nd: nat, nm: nat, k: nat)
    requires StoredAt(file, offset, rows) && Uniform(rows, nd, nm) && k < |rows|
    ensures var a := offset / 4 + Times(k, Width(nd, nm));
      a + Width(nd, nm) <= |file| && Decode(file[a..a + Width(nd, nm)], nm) == rows[k]
  {
    hide EncodeAll; hide Encode; hide Decode; hide Times;
    RecordAt(rows, nd, nm, k);
    var enc, w, base, t := EncodeAll(rows), Width(nd, nm), offset / 4, Times(k, Width(nd, nm));
    SliceOfSlice(file, base, |enc|, t, w);
    assert file[base + t..base + t + w] == enc[t..t + w] == Encode(rows[k]);
    DecodeEncode(rows[k]);
  }
}
