/** `arrayToTSV` (utils.js): a list of records becomes a tab-separated table whose header
    line names every key in the order it was first seen, followed by one line per record
    with each value in its key's column. A record is the list of its `(key, value)` pairs in
    `Object.keys` order, with every value already turned into its string. */
module Tsv {
  import Seqs

  type Pair = (string, string)
  type Record = seq<Pair>

  /** The sparse `row` array: `None` is a hole that `row[index] = …` never wrote. */
  type Row = seq<Seqs.Option<string>>

  const Tab: string := "\t"
  /** What the template literal adds before each record's line: a line break and the six
      spaces of indentation that follow it in the source text. */
  const LineBreak: string := "\n      "

  function Keys(rec: Record): (r: seq<string>)
    ensures |r| == |rec| && forall i :: 0 <= i < |rec| ==> r[i] == rec[i].0
  {
    seq(|rec|, i requires 0 <= i < |rec| => rec[i].0)
  }

  /** `row[i] = v` on a JavaScript array: the array grows to `i + 1` when `i` is past its end,
      leaving holes in between. */
  function Put(row: Row, i: nat, v: string): (r: Row)
    ensures |r| == if i < |row| then |row| else i + 1
    ensures r[i] == Seqs.Some(v)
    ensures forall j :: 0 <= j < |r| && j != i ==> r[j] == if j < |row| then row[j] else Seqs.None
  {
    if i < |row| then row[i := Seqs.Some(v)] else row + seq(i - |row|, _ => Seqs.None) + [Seqs.Some(v)]
  }

  /** `arr.join(sep)`: the elements with `sep` between them, "" for no elements. */
  function Join(s: seq<string>, sep: string): string {
    if |s| == 0 then ""
    else if |s| == 1 then s[0]
    else Join(s[..|s| - 1], sep) + sep + s[|s| - 1]
  }

  /** The strings `join` makes of a row: a hole becomes the empty string. */
  function Cells(row: Row): seq<string>
  {
    seq(|row|, j requires 0 <= j < |row| => if row[j].Some? then row[j].value else "")
  }

  // ---------------------------------------------------------------------------------------
  // What the loops compute

  /** The inner loop after the pairs `pairs`: the headers, grown by every new key, and the
      row, with each value written at its key's column. */
  function Fill(h: seq<string>, row: Row, pairs: Record): (seq<string>, Row) {
    if |pairs| == 0 then (h, row)
    else
      var (h0, row0) := Fill(h, row, pairs[..|pairs| - 1]);
      var (k, v) := pairs[|pairs| - 1];
      var i := Seqs.IndexOf(h0, k);
      if i == -1 then (h0 + [k], Put(row0, |h0|, v)) else (h0, Put(row0, i, v))
  }

  /** The outer loop after the records `json`: the headers and one row per record. */
  function Table(json: seq<Record>): (seq<string>, seq<Row>) {
    if |json| == 0 then ([], [])
    else
      var (h, rows) := Table(json[..|json| - 1]);
      var (h', row) := Fill(h, [], json[|json| - 1]);
      (h', rows + [row])
  }

  /** The lines after the header line. */
  function RowLines(rows: seq<Row>): string {
    if |rows| == 0 then ""
    else RowLines(rows[..|rows| - 1]) + LineBreak + Join(Cells(rows[|rows| - 1]), Tab)
  }

  function Render(headers: seq<string>, rows: seq<Row>): string {
    Join(headers, Tab) + RowLines(rows)
  }

  /** `arrayToTSV(json)`. */
  method ArrayToTsv(json: seq<Record>) returns (output: string)
    ensures output == Render(Table(json).0, Table(json).1)
  {
    var headers: seq<string> := [];
    var rows: seq<Row> := [];
    for p := 0 to |json|
      invariant (headers, rows) == Table(json[..p])
    {
      assert json[..p + 1][..p] == json[..p];
      var row;
      headers, row := AddRecord(headers, json[p]);
      rows := rows + [row];
    }
    assert json[..|json|] == json;
    output := RenderLines(headers, rows);
  }

  /** The body of the `for (let prop of json)` loop: one record's keys join the headers and its
      values fill a new row. */
  method AddRecord(headers: seq<string>, prop: Record) returns (headers': seq<string>, row: Row)
    ensures (headers', row) == Fill(headers, [], prop)
  {
    headers' := headers;
    row := [];
    var keys := Keys(prop);
    for q := 0 to |keys|
      invariant (headers', row) == Fill(headers, [], prop[..q])
    {
      assert prop[..q + 1][..q] == prop[..q];
      var key := keys[q];
      var index := Seqs.IndexOf(headers', key);
      if index == -1 {
        index := |headers'|;
        headers' := headers' + [key];
      }
      row := Put(row, index, prop[q].1);
    }
    assert prop[..|keys|] == prop;
  }

  /** The output half: the header line, then each row after a line break. */
  method RenderLines(headers: seq<string>, rows: seq<Row>) returns (output: string)
    ensures output == Render(headers, rows)
  {
    output := Join(headers, Tab);
    for r := 0 to |rows|
      invariant output == Join(headers, Tab) + RowLines(rows[..r])
    {
      assert rows[..r + 1][..r] == rows[..r];
      output := output + LineBreak + Join(Cells(rows[r]), Tab);
    }
    assert rows[..|rows|] == rows;
  }

  // ---------------------------------------------------------------------------------------
  // The headers

  /** Every key of every record, record after record. */
  function AllKeys(json: seq<Record>): seq<string> {
    if |json| == 0 then [] else AllKeys(json[..|json| - 1]) + Keys(json[|json| - 1])
  }

  /** The key fold on its own: a key joins the headers when `indexOf` does not find it. */
  function AddKeys(h: seq<string>, keys: seq<string>): seq<string> {
    if |keys| == 0 then h
    else
      var h0 := AddKeys(h, keys[..|keys| - 1]);
      if keys[|keys| - 1] in h0 then h0 else h0 + [keys[|keys| - 1]]
  }

  lemma {:induction false} FillHeaders(h: seq<string>, row: Row, pairs: Record)
    ensures Fill(h, row, pairs).0 == AddKeys(h, Keys(pairs))
  {
    if |pairs| > 0 {
      FillHeaders(h, row, pairs[..|pairs| - 1]);
      assert Keys(pairs)[..|pairs| - 1] == Keys(pairs[..|pairs| - 1]);
    }
  }

  lemma {:induction false} AddKeysAppend(h: seq<string>, a: seq<string>, b: seq<string>)
    ensures AddKeys(h, a + b) == AddKeys(AddKeys(h, a), b)
  {
    if |b| > 0 {
      AddKeysAppend(h, a, b[..|b| - 1]);
      assert (a + b)[..|a + b| - 1] == a + b[..|b| - 1];
    } else {
      assert a + b == a;
    }
  }

  /** The header line is the key fold over all keys. */
  lemma {:induction false} TableHeaders(json: seq<Record>)
    ensures Table(json).0 == AddKeys([], AllKeys(json))
  {
    if |json| > 0 {
      var init := json[..|json| - 1];
      TableHeaders(init);
      FillHeaders(Table(init).0, [], json[|json| - 1]);
      AddKeysAppend([], AllKeys(init), Keys(json[|json| - 1]));
    }
  }

  /** Starting from no headers, the fold keeps each key once, at the place it first occurs. */
  lemma {:induction false} AddKeysFirstSeen(keys: seq<string>)
    ensures var h := AddKeys([], keys);
      && Seqs.Distinct(h)
      && (forall k :: k in h <==> k in keys)
      && (forall a, b :: 0 <= a < b < |h| ==> Seqs.IndexOf(keys, h[a]) < Seqs.IndexOf(keys, h[b]))
  {
    if |keys| > 0 {
      var init, x := keys[..|keys| - 1], keys[|keys| - 1];
      assert keys == init + [x];
      AddKeysFirstSeen(init);
      var h0 := AddKeys([], init);
      forall k | k in init ensures Seqs.IndexOf(keys, k) == Seqs.IndexOf(init, k) {
        IndexOfPrefix(init, [x], k);
      }
      if x !in h0 {
        assert Seqs.IndexOf(keys, x) == |init| by {
          IndexOfPrefix(init, [x], x);
        }
        var h := h0 + [x];
        forall a, b | 0 <= a < b < |h| ensures Seqs.IndexOf(keys, h[a]) < Seqs.IndexOf(keys, h[b]) {
          assert h[a] == h0[a] && h[a] in init;
        }
      }
    }
  }

  /** `indexOf` in a list that starts with `s` finds what it finds in `s`, and past it otherwise. */
  lemma {:induction false} IndexOfPrefix(s: seq<string>, t: seq<string>, k: string)
    ensures k in s ==> Seqs.IndexOf(s + t, k) == Seqs.IndexOf(s, k)
    ensures k !in s && k in t ==> Seqs.IndexOf(s + t, k) == |s| + Seqs.IndexOf(t, k)
  {
    if |s| > 0 {
      IndexOfPrefix(s[1..], t, k);
      assert (s + t)[1..] == s[1..] + t;
    } else {
      assert s + t == t;
    }
  }

  /** The header line names each key of the records exactly once, in first-seen order. */
  lemma HeadersFirstSeen(json: seq<Record>)
    ensures var h, keys := Table(json).0, AllKeys(json);
      && Seqs.Distinct(h)
      && (forall k :: k in h <==> k in keys)
      && (forall a, b :: 0 <= a < b < |h| ==> Seqs.IndexOf(keys, h[a]) < Seqs.IndexOf(keys, h[b]))
  {
    TableHeaders(json);
    AddKeysFirstSeen(AllKeys(json));
  }

  // ---------------------------------------------------------------------------------------
  // The rows

  /** `h'` is `h` with entries appended. */
  predicate Extends(h: seq<string>, h': seq<string>) {
    |h| <= |h'| && h'[..|h|] == h
  }

  /** Appending headers leaves the column of every existing header where it was. */
  lemma IndexOfExtends(h: seq<string>, h': seq<string>, key: string)
    requires Extends(h, h') && key in h
    ensures Seqs.IndexOf(h', key) == Seqs.IndexOf(h, key)
  {
    assert h' == h + h'[|h|..];
    IndexOfPrefix(h, h'[|h|..], key);
  }

  /** Filling a row only appends headers, and, from a row no longer than the headers, leaves
      one no longer than the headers. */
  lemma {:induction false} FillGrows(h: seq<string>, row: Row, pairs: Record)
    requires |row| <= |h|
    ensures Extends(h, Fill(h, row, pairs).0) && |row| <= |Fill(h, row, pairs).1| <= |Fill(h, row, pairs).0|
  {
    if |pairs| > 0 {
      var init := pairs[..|pairs| - 1];
      FillGrows(h, row, init);
      var h0 := Fill(h, row, init).0;
      var h' := Fill(h, row, pairs).0;
      assert h'[..|h0|] == h0;
      assert h'[..|h|] == h0[..|h|];
    }
  }

  /** The value of the last pair for a key sits at that key's column. */
  lemma {:induction false} FillLast(h: seq<string>, row: Row, pairs: Record, i: nat)
    requires |row| <= |h| && i < |pairs|
    requires forall j :: i < j < |pairs| ==> pairs[j].0 != pairs[i].0
    ensures var (h', row') := Fill(h, row, pairs);
      pairs[i].0 in h' && Seqs.IndexOf(h', pairs[i].0) < |row'| &&
      row'[Seqs.IndexOf(h', pairs[i].0)] == Seqs.Some(pairs[i].1)
  {
    var init := pairs[..|pairs| - 1];
    var (h0, row0) := Fill(h, row, init);
    var (k, v) := pairs[|pairs| - 1];
    var (h', row') := Fill(h, row, pairs);
    if i == |pairs| - 1 {
      if Seqs.IndexOf(h0, k) == -1 {
        IndexOfPrefix(h0, [k], k);
      }
    } else {
      assert init[i] == pairs[i] && pairs[i].0 != k;
      FillLast(h, row, init, i);
      FillGrows(h, row, init);
      assert Extends(h0, h');
      IndexOfExtends(h0, h', pairs[i].0);
    }
  }

  /** A column whose header is none of the pairs' keys keeps what it held (a hole past the
      old end). */
  lemma {:induction false} FillOthers(h: seq<string>, row: Row, pairs: Record, c: nat)
    requires |row| <= |h| && c < |Fill(h, row, pairs).1|
    ensures c < |Fill(h, row, pairs).0|
    ensures Fill(h, row, pairs).0[c] !in Keys(pairs) ==>
      Fill(h, row, pairs).1[c] == if c < |row| then row[c] else Seqs.None
  {
    FillGrows(h, row, pairs);
    if |pairs| > 0 && Fill(h, row, pairs).0[c] !in Keys(pairs) {
      var init := pairs[..|pairs| - 1];
      var (h0, row0) := Fill(h, row, init);
      var (k, v) := pairs[|pairs| - 1];
      var (h', row') := Fill(h, row, pairs);
      assert Keys(pairs) == Keys(init) + [k];
      FillGrows(h, row, init);
      var i0 := Seqs.IndexOf(h0, k);
      if c < |h0| {
        assert h'[c] == h0[c];
        assert c != i0;
        if c < |row0| {
          FillOthers(h, row, init, c);
        }
      }
    }
  }

  /** The line of record `r` is the row filled from the headers of the records before it, and
      the final headers extend the headers after it. */
  lemma {:induction false} TableRow(json: seq<Record>, r: nat)
    requires r < |json|
    ensures |Table(json).1| == |json|
    ensures Table(json).1[r] == Fill(Table(json[..r]).0, [], json[r]).1
    ensures Extends(Fill(Table(json[..r]).0, [], json[r]).0, Table(json).0)
  {
    var init := json[..|json| - 1];
    var (h, rows) := Table(json);
    FillGrows(Table(init).0, [], json[|json| - 1]);
    if r < |init| {
      TableRow(init, r);
      assert json[..r] == init[..r];
      var hr := Fill(Table(json[..r]).0, [], json[r]).0;
      assert h[..|hr|] == Table(init).0[..|hr|];
    } else {
      assert init == json[..r];
      if |init| > 0 {
        TableRow(init, 0);
      }
    }
  }

  /** The line `row` under headers `h` carries record `rec`: each key's value (for a key given
      twice, the later value) sits at column `headers.indexOf(key)`, and a column whose header
      is not one of the record's keys is empty. */
  predicate Placed(h: seq<string>, row: Row, rec: Record)
    requires |row| <= |h|
  {
    && (forall i :: 0 <= i < |rec| && (forall j :: i < j < |rec| ==> rec[j].0 != rec[i].0) ==>
          rec[i].0 in h && Seqs.IndexOf(h, rec[i].0) < |row| &&
          Cells(row)[Seqs.IndexOf(h, rec[i].0)] == rec[i].1)
    && (forall c :: 0 <= c < |row| && h[c] !in Keys(rec) ==> Cells(row)[c] == "")
  }

  /** How long the line of record `rec` is under headers `h`: one past the largest column of
      its keys, and 0 for a record without keys. */
  function Width(h: seq<string>, rec: Record): (r: nat)
    ensures forall i :: 0 <= i < |rec| ==> Seqs.IndexOf(h, rec[i].0) < r
    ensures r == 0 || exists i :: 0 <= i < |rec| && Seqs.IndexOf(h, rec[i].0) + 1 == r
  {
    if |rec| == 0 then 0
    else
      var w, c := Width(h, rec[..|rec| - 1]), Seqs.IndexOf(h, rec[|rec| - 1].0) + 1;
      assert forall i :: 0 <= i < |rec| - 1 ==> rec[..|rec| - 1][i] == rec[i];
      if c > w then c else w
  }

  /** Appending headers changes no record's width once its keys are all among them. */
  lemma {:induction false} WidthExtends(h: seq<string>, h': seq<string>, rec: Record)
    requires Extends(h, h') && forall i :: 0 <= i < |rec| ==> rec[i].0 in h
    ensures Width(h', rec) == Width(h, rec)
  {
    if |rec| > 0 {
      WidthExtends(h, h', rec[..|rec| - 1]);
      IndexOfExtends(h, h', rec[|rec| - 1].0);
    }
  }

  /** Filling puts every key of the pairs among the headers. */
  lemma {:induction false} FillKeys(h: seq<string>, row: Row, pairs: Record)
    ensures forall i :: 0 <= i < |pairs| ==> pairs[i].0 in Fill(h, row, pairs).0
  {
    if |pairs| > 0 {
      var init := pairs[..|pairs| - 1];
      FillKeys(h, row, init);
      assert forall i :: 0 <= i < |pairs| - 1 ==> init[i] == pairs[i];
    }
  }

  /** Filling leaves the row as long as the old row or the pairs' width, whichever is more. */
  lemma {:induction false} FillWidth(h: seq<string>, row: Row, pairs: Record)
    requires |row| <= |h|
    ensures var w := Width(Fill(h, row, pairs).0, pairs);
      |Fill(h, row, pairs).1| == if |row| > w then |row| else w
  {
    if |pairs| > 0 {
      var init := pairs[..|pairs| - 1];
      FillWidth(h, row, init);
      FillGrows(h, row, init);
      FillKeys(h, row, init);
      var (h0, row0) := Fill(h, row, init);
      var k := pairs[|pairs| - 1].0;
      var i := Seqs.IndexOf(h0, k);
      var h' := if i == -1 then h0 + [k] else h0;
      assert Fill(h, row, pairs).0 == h';
      assert |Fill(h, row, pairs).1| == if i == -1 then |h0| + 1 else if i < |row0| then |row0| else i + 1;
      assert Extends(h0, h');
      WidthExtends(h0, h', init);
      if i == -1 {
        IndexOfPrefix(h0, [k], k);
      } else {
        IndexOfExtends(h0, h', k);
      }
    }
  }

  /** The line of record `r` is exactly as long as the record's width under the header line. */
  lemma RowWidth(json: seq<Record>, r: nat)
    requires r < |json|
    ensures |Table(json).1| == |json| && |Table(json).1[r]| == Width(Table(json).0, json[r])
  {
    TableRow(json, r);
    var h0 := Table(json[..r]).0;
    var hr := Fill(h0, [], json[r]).0;
    FillWidth(h0, [], json[r]);
    FillKeys(h0, [], json[r]);
    WidthExtends(hr, Table(json).0, json[r]);
  }

  /** Each record's line carries that record, is exactly as long as the record's width under
      the header line, and is no longer than the header line. */
  lemma RowColumns(json: seq<Record>, r: nat)
    requires r < |json|
    ensures var (h, rows) := Table(json);
      |rows| == |json| && |rows[r]| <= |h| && Placed(h, rows[r], json[r])
    ensures |Table(json).1[r]| == Width(Table(json).0, json[r])
  {
    TableRow(json, r);
    var (h, rows) := Table(json);
    var h0 := Table(json[..r]).0;
    var (hr, row) := Fill(h0, [], json[r]);
    FillGrows(h0, [], json[r]);
    RowWidth(json, r);
    forall i | 0 <= i < |json[r]| && (forall j :: i < j < |json[r]| ==> json[r][j].0 != json[r][i].0)
      ensures json[r][i].0 in h && Seqs.IndexOf(h, json[r][i].0) < |rows[r]|
      ensures Cells(rows[r])[Seqs.IndexOf(h, json[r][i].0)] == json[r][i].1
    {
      FillLast(h0, [], json[r], i);
      IndexOfExtends(hr, h, json[r][i].0);
    }
    forall c | 0 <= c < |rows[r]| && h[c] !in Keys(json[r]) ensures Cells(rows[r])[c] == "" {
      assert h[c] == hr[c];
      FillOthers(h0, [], json[r], c);
    }
    assert Placed(h, rows[r], json[r]);
  }

  // ---------------------------------------------------------------------------------------
  // Line breaks

  function Count(c: char, s: string): nat {
    if |s| == 0 then 0 else Count(c, s[..|s| - 1]) + (if s[|s| - 1] == c then 1 else 0)
  }

  lemma {:induction false} CountAppend(c: char, s: string, t: string)
    ensures Count(c, s + t) == Count(c, s) + Count(c, t)
  {
    if |t| > 0 {
      CountAppend(c, s, t[..|t| - 1]);
      assert (s + t)[..|s + t| - 1] == s + t[..|t| - 1];
    } else {
      assert s + t == s;
    }
  }

  lemma {:induction false} CountNone(c: char, s: string)
    requires c !in s
    ensures Count(c, s) == 0
  {
    if |s| > 0 {
      CountNone(c, s[..|s| - 1]);
    }
  }

  /** Joining strings without line breaks makes none. */
  lemma {:induction false} JoinNoBreak(s: seq<string>, sep: string)
    requires '\n' !in sep && forall i :: 0 <= i < |s| ==> '\n' !in s[i]
    ensures Count('\n', Join(s, sep)) == 0
  {
    if |s| == 1 {
      CountNone('\n', s[0]);
    } else if |s| > 1 {
      JoinNoBreak(s[..|s| - 1], sep);
      CountAppend('\n', Join(s[..|s| - 1], sep), sep);
      CountAppend('\n', Join(s[..|s| - 1], sep) + sep, s[|s| - 1]);
      CountNone('\n', sep);
      CountNone('\n', s[|s| - 1]);
    }
  }

  function NoBreaks(json: seq<Record>): bool {
    forall r, i :: 0 <= r < |json| && 0 <= i < |json[r]| ==> '\n' !in json[r][i].0 && '\n' !in json[r][i].1
  }

  lemma {:induction false} RowLinesBreaks(rows: seq<Row>)
    requires forall r, c :: 0 <= r < |rows| && 0 <= c < |rows[r]| && rows[r][c].Some? ==> '\n' !in rows[r][c].value
    ensures Count('\n', RowLines(rows)) == |rows|
  {
    if |rows| > 0 {
      var init, last := rows[..|rows| - 1], rows[|rows| - 1];
      RowLinesBreaks(init);
      JoinNoBreak(Cells(last), Tab);
      CountAppend('\n', RowLines(init), LineBreak);
      CountAppend('\n', RowLines(init) + LineBreak, Join(Cells(last), Tab));
      assert Count('\n', LineBreak) == 1 by {
        assert LineBreak == "\n" + "      ";
        assert "\n"[..0] == "";
        CountAppend('\n', "\n", "      ");
        CountNone('\n', "      ");
      }
    }
  }

  /** Every cell a filled row holds is a value of one of its pairs. */
  lemma {:induction false} FillValues(h: seq<string>, row: Row, pairs: Record, c: nat)
    requires c < |Fill(h, row, pairs).1| && Fill(h, row, pairs).1[c].Some?
    ensures (c < |row| && row[c] == Fill(h, row, pairs).1[c]) ||
            exists i :: 0 <= i < |pairs| && Fill(h, row, pairs).1[c].value == pairs[i].1
  {
    if |pairs| > 0 {
      var init := pairs[..|pairs| - 1];
      var (h0, row0) := Fill(h, row, init);
      var (k, v) := pairs[|pairs| - 1];
      var row' := Fill(h, row, pairs).1;
      if row'[c] != Seqs.Some(v) {
        var i0 := Seqs.IndexOf(h0, k);
        assert c < |row0| && row'[c] == row0[c];
        FillValues(h, row, init, c);
        if !(c < |row| && row[c] == row'[c]) {
          var i :| 0 <= i < |init| && row0[c].value == init[i].1;
          assert pairs[i] == init[i];
        }
      } else {
        assert row'[c].value == pairs[|pairs| - 1].1;
      }
    }
  }

  /** Without line breaks in keys or values, the output has exactly one line break per
      record after the header line. */
  lemma LineBreaks(json: seq<Record>)
    requires NoBreaks(json)
    ensures Count('\n', Render(Table(json).0, Table(json).1)) == |json|
  {
    HeaderLineNoBreak(json);
    RowLinesCount(json);
    CountAppend('\n', Join(Table(json).0, Tab), RowLines(Table(json).1));
  }

  lemma HeaderLineNoBreak(json: seq<Record>)
    requires NoBreaks(json)
    ensures Count('\n', Join(Table(json).0, Tab)) == 0
  {
    var h := Table(json).0;
    HeadersFirstSeen(json);
    forall i | 0 <= i < |h| ensures '\n' !in h[i] {
      KeyIn(json, h[i]);
    }
    JoinNoBreak(h, Tab);
  }

  lemma RowLinesCount(json: seq<Record>)
    requires NoBreaks(json)
    ensures Count('\n', RowLines(Table(json).1)) == |json|
  {
    var rows: seq<Row> := Table(json).1;
    if |json| > 0 {
      TableRow(json, 0);
    }
    forall r, c | 0 <= r < |rows| && 0 <= c < |rows[r]| && rows[r][c].Some?
      ensures '\n' !in rows[r][c].value
    {
      CellNoBreak(json, r, c);
    }
    RowLinesBreaks(rows);
  }

  lemma CellNoBreak(json: seq<Record>, r: nat, c: nat)
    requires NoBreaks(json) && r < |json|
    requires r < |Table(json).1| && c < |Table(json).1[r]| && Table(json).1[r][c].Some?
    ensures '\n' !in Table(json).1[r][c].value
  {
    TableRow(json, r);
    FillValues(Table(json[..r]).0, [], json[r], c);
  }

  /** A key of the records is a key of one of them. */
  lemma {:induction false} KeyIn(json: seq<Record>, k: string)
    requires k in AllKeys(json)
    ensures exists r, i :: 0 <= r < |json| && 0 <= i < |json[r]| && json[r][i].0 == k
  {
    var init := json[..|json| - 1];
    if k in AllKeys(init) {
      KeyIn(init, k);
      var r, i :| 0 <= r < |init| && 0 <= i < |init[r]| && init[r][i].0 == k;
      assert json[r] == init[r];
    } else {
      var i :| 0 <= i < |Keys(json[|json| - 1])| && Keys(json[|json| - 1])[i] == k;
    }
  }
}
