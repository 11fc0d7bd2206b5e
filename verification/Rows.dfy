/** Text rows: parsing, re-encoding and overriding (src/mysql/accumulator/result_set.rs:85-177). */
module Rows {
  import opened Outcomes
  import opened Bytes
  import opened Types
  import opened Packets
  import opened Evaluator
  import opened DiffLog

  datatype Column = Column(orgTable: Text, orgName: Text)

  /** One field of a row as sent: NULL or bytes. */
  type Field = Option<seq<byte>>

  function EncodeField(f: Field): (s: seq<byte>)
    ensures s != []
  {
    match f case None => [0xFB] case Some(t) => EncodeText(t)
  }

  function EncodeRow(fs: seq<Field>): seq<byte> {
    if fs == [] then [] else EncodeField(fs[0]) + EncodeRow(fs[1..])
  }

  lemma {:induction false} EncodeRowAppend(a: seq<Field>, b: seq<Field>)
    ensures EncodeRow(a + b) == EncodeRow(a) + EncodeRow(b)
  {
    if a == [] {
      assert a + b == b;
    } else {
      assert (a + b)[1..] == a[1..] + b;
      EncodeRowAppend(a[1..], b);
    }
  }

  /** The first field of a row body and its width. */
  function NextField(bytes: seq<byte>): (r: Outcome<Decoded<Field>>)
    requires bytes != []
    ensures r.Done? ==> 0 < r.value.increment <= |bytes|
    ensures r.Panic? ==> r.fault == Malformed
  {
    if bytes[0] == 0xFB then Done(Decoded(None, 1)) else
    var d :- DecodeText(bytes);
    Done(Decoded(Some(d.result), d.increment))
  }

  function ParseFields(bytes: seq<byte>): (r: Outcome<seq<Field>>)
    ensures r.Panic? ==> r.fault == Malformed
    ensures r.Done? && bytes != [] ==> r.value != []
    decreases |bytes|
  {
    if bytes == [] then Done([]) else
    var f :- NextField(bytes);
    var rest :- ParseFields(bytes[f.increment..]);
    Done([f.result] + rest)
  }

  /** Fields filed under their column's original name, later columns replacing earlier ones. */
  function RowOf(columns: seq<Column>, fs: seq<Field>): (row: Row)
    requires |fs| <= |columns|
    ensures forall i :: 0 <= i < |fs| ==> columns[i].orgName in row
    ensures |row| <= |fs|
  {
    if fs == [] then map[] else
    var n := |fs| - 1;
    assert fs[..n] + [fs[n]] == fs;
    RowOf(columns, fs[..n])[columns[n].orgName := fs[n]]
  }

  /** The row map of a body, from at most as many fields as there are columns. */
  function RowFromBody(columns: seq<Column>, body: seq<byte>): (r: Outcome<Row>)
    ensures r.Panic? ==> r.fault == Malformed
    ensures r.Done? ==> |r.value| <= |columns| && forall i :: 0 <= i < |r.value| ==> columns[i].orgName in r.value
  {
    var fs :- ParseFields(body);
    if |fs| > |columns| then Panic(Malformed) else Done(RowOf(columns, fs))
  }

  /** The values re-encoding writes: those of as many leading columns as the row map has entries. */
  function Values(columns: seq<Column>, row: Row, n: nat): (fs: seq<Field>)
    requires n <= |columns| && forall i :: 0 <= i < n ==> columns[i].orgName in row
    ensures |fs| == n
    ensures forall i :: 0 <= i < n ==> fs[i] == row[columns[i].orgName]
  {
    seq(n, i requires 0 <= i < n => row[columns[i].orgName])
  }

  /** The row with the assigned columns among the first `n` replaced. */
  function OverrideFirst(columns: seq<Column>, row: Row, a: Option<Assigned>, n: nat): (r: Row)
    requires n <= |columns|
    ensures r.Keys == row.Keys
  {
    map c | c in row ::
      if a.Some? && c in a.value && (exists k :: 0 <= k < n && columns[k].orgName == c) then a.value[c] else row[c]
  }

  /** Is the row dropped? Only when the SELECT's condition evaluates to false on it. */
  function Dropped(row: Row, selection: Option<Expr>): Outcome<bool> {
    match selection
    case None => Done(false)
    case Some(s) => var v :- Evaluate(row, s); Done(v == Boolean(false))
  }

  datatype Rewritten = Rewritten(body: seq<byte>, dropped: bool)

  /** What becomes of a row body under a table's log and the SELECT's condition. */
  function Rewrite(columns: seq<Column>, body: seq<byte>, log: Log, selection: Option<Expr>): (r: Outcome<Rewritten>)
    ensures r.Panic? ==> r.fault in {Malformed, Unsupported}
  {
    var row :- RowFromBody(columns, body);
    var a :- LastMatch(row, log);
    var row' := OverrideFirst(columns, row, a, |row|);
    var dropped :- Dropped(row', selection);
    Done(Rewritten(EncodeRow(Values(columns, row', |row|)), dropped))
  }

  function WidenField(f: Field): Field {
    match f case None => None case Some(t) => Some(Widen(t))
  }

  function WidenAll(fs: seq<Field>): (ws: seq<Field>)
    ensures |ws| == |fs| && forall i :: 0 <= i < |fs| ==> ws[i] == WidenField(fs[i])
  {
    seq(|fs|, i requires 0 <= i < |fs| => WidenField(fs[i]))
  }

  predicate AsciiFields(fs: seq<Field>) {
    forall i :: 0 <= i < |fs| && fs[i].Some? ==> Ascii(fs[i].value)
  }

  /** Lengths fit a length-encoded integer. */
  predicate Encodable(fs: seq<Field>) {
    forall i :: 0 <= i < |fs| && fs[i].Some? ==> |fs[i].value| < U64
  }

  predicate DistinctNames(columns: seq<Column>) {
    forall i, j :: 0 <= i < j < |columns| ==> columns[i].orgName != columns[j].orgName
  }

  lemma FieldRoundTrip(f: Field, tail: seq<byte>)
    requires f.Some? ==> |f.value| < U64
    ensures NextField(EncodeField(f) + tail) == Done(Decoded(WidenField(f), |EncodeField(f)|))
    ensures (EncodeField(f) + tail)[|EncodeField(f)|..] == tail
    ensures f.Some? && Ascii(f.value) ==> WidenField(f) == f
    ensures f.None? ==> WidenField(f) == f
  {
    hide DecodeText, EncodeText, EncodeLenEnc, Widen;
    if f.Some? {
      TextRoundTrip(f.value, tail);
      assert (EncodeText(f.value) + tail)[0] == EncodeText(f.value)[0];
    }
  }

  /** Row codec: an encoded row parses back to its fields, each decoded byte by byte, and is consumed whole. */
  lemma {:induction false} RowRoundTrip(fs: seq<Field>)
    requires Encodable(fs)
    ensures ParseFields(EncodeRow(fs)) == Done(WidenAll(fs))
    ensures AsciiFields(fs) ==> WidenAll(fs) == fs
  {
    hide NextField, EncodeField, WidenField;
    if fs != [] {
      var tail := EncodeRow(fs[1..]);
      RowRoundTrip(fs[1..]);
      var f := fs[0];
      FieldRoundTrip(f, tail);
      assert [WidenField(f)] + WidenAll(fs[1..]) == WidenAll(fs);
    }
  }

  lemma WidenedFieldIsLonger(f: Field)
    ensures |EncodeField(f)| <= |EncodeField(WidenField(f))|
    ensures |EncodeField(f)| == |EncodeField(WidenField(f))| ==> WidenField(f) == f
  {
  }

  lemma {:induction false} WidenedRowIsLonger(fs: seq<Field>)
    ensures |EncodeRow(fs)| <= |EncodeRow(WidenAll(fs))|
    ensures |EncodeRow(fs)| == |EncodeRow(WidenAll(fs))| ==> WidenAll(fs) == fs
  {
    hide EncodeField, WidenField;
    var ws := WidenAll(fs);
    if fs == [] {
      assert ws == fs;
    } else {
      WidenedRowIsLonger(fs[1..]);
      WidenedFieldIsLonger(fs[0]);
      assert ws[1..] == WidenAll(fs[1..]);
      assert |EncodeRow(fs)| == |EncodeField(fs[0])| + |EncodeRow(fs[1..])|;
      assert |EncodeRow(ws)| == |EncodeField(ws[0])| + |EncodeRow(ws[1..])|;
      assert fs == [fs[0]] + fs[1..] && ws == [ws[0]] + ws[1..];
    }
  }

  /** Decoding and re-encoding restores a canonical body if and only if all its text is ASCII. */
  lemma ReencodingRestoresAscii(fs: seq<Field>)
    requires Encodable(fs)
    ensures ParseFields(EncodeRow(fs)).Done?
    ensures EncodeRow(ParseFields(EncodeRow(fs)).value) == EncodeRow(fs) <==> AsciiFields(fs)
  {
    RowRoundTrip(fs);
    if EncodeRow(WidenAll(fs)) == EncodeRow(fs) {
      WidenedRowIsLonger(fs);
      forall i | 0 <= i < |fs| && fs[i].Some? ensures Ascii(fs[i].value) {
        assert WidenAll(fs)[i] == fs[i];
      }
    }
  }

  lemma RowOfStep(columns: seq<Column>, fs: seq<Field>)
    requires fs != [] && |fs| <= |columns|
    ensures var n := |fs| - 1; var before := RowOf(columns, fs[..n]); var name := columns[n].orgName;
      && RowOf(columns, fs) == before[name := fs[n]]
      && |RowOf(columns, fs)| == |before| + (if name in before then 0 else 1)
  {
    var n := |fs| - 1;
    var before, name := RowOf(columns, fs[..n]), columns[n].orgName;
    assert RowOf(columns, fs).Keys == before.Keys + {name};
    assert |RowOf(columns, fs)| == |RowOf(columns, fs).Keys| && |before| == |before.Keys|;
    if name in before {
      assert before.Keys + {name} == before.Keys;
    }
  }

  /** Under distinct names the row map has one entry per field, holding that field. */
  lemma {:induction false} RowOfDistinct(columns: seq<Column>, fs: seq<Field>)
    requires |fs| <= |columns|
    requires forall i, j :: 0 <= i < j < |fs| ==> columns[i].orgName != columns[j].orgName
    ensures |RowOf(columns, fs)| == |fs|
    ensures forall i :: 0 <= i < |fs| ==> RowOf(columns, fs)[columns[i].orgName] == fs[i]
    ensures forall c :: c in RowOf(columns, fs) ==> exists i :: 0 <= i < |fs| && columns[i].orgName == c
  {
    hide RowOf;
    if fs != [] {
      var n := |fs| - 1;
      RowOfDistinct(columns, fs[..n]);
      RowOfStep(columns, fs);
    } else {
      RowOfNothing(columns);
    }
  }

  lemma RowOfNothing(columns: seq<Column>)
    ensures RowOf(columns, []) == map[]
  {
  }

  lemma {:induction false} RowOfDuplicate(columns: seq<Column>, fs: seq<Field>, i: nat, j: nat)
    requires |fs| <= |columns| && i < j < |fs| && columns[i].orgName == columns[j].orgName
    ensures |RowOf(columns, fs)| < |fs|
  {
    hide RowOf;
    RowOfStep(columns, fs);
    if j < |fs| - 1 {
      RowOfDuplicate(columns, fs[..|fs| - 1], i, j);
    } else {
      assert columns[i].orgName in RowOf(columns, fs[..|fs| - 1]);
    }
  }

  /** A rewritten row has as many fields as the original if and only if the original names of its
      columns are distinct; a repeated name truncates the row. */
  lemma FieldCountKept(columns: seq<Column>, fs: seq<Field>)
    requires |fs| <= |columns|
    ensures |RowOf(columns, fs)| == |fs| <==>
      forall i, j :: 0 <= i < j < |fs| ==> columns[i].orgName != columns[j].orgName
  {
    if forall i, j :: 0 <= i < j < |fs| ==> columns[i].orgName != columns[j].orgName {
      RowOfDistinct(columns, fs);
    } else {
      var i, j :| 0 <= i < j < |fs| && columns[i].orgName == columns[j].orgName;
      RowOfDuplicate(columns, fs, i, j);
    }
  }

  /** The fields with the assigned columns replaced, position by position. */
  function Replaced(columns: seq<Column>, fs: seq<Field>, a: Option<Assigned>): (r: seq<Field>)
    requires |fs| <= |columns|
    ensures |r| == |fs|
    ensures forall i :: 0 <= i < |fs| ==>
      r[i] == if a.Some? && columns[i].orgName in a.value then a.value[columns[i].orgName] else fs[i]
  {
    seq(|fs|, i requires 0 <= i < |fs| =>
      if a.Some? && columns[i].orgName in a.value then a.value[columns[i].orgName] else fs[i])
  }

  /** Under distinct names the rewriting loop visits every column of the row. */
  lemma OverrideIsComplete(columns: seq<Column>, fs: seq<Field>, a: Option<Assigned>)
    requires DistinctNames(columns) && |fs| <= |columns|
    ensures |RowOf(columns, fs)| == |fs|
    ensures OverrideFirst(columns, RowOf(columns, fs), a, |fs|) == OverriddenBy(RowOf(columns, fs), a)
  {
    hide RowOf;
    var row := RowOf(columns, fs);
    RowOfDistinct(columns, fs);
    var first, all := OverrideFirst(columns, row, a, |fs|), OverriddenBy(row, a);
    forall c | c in row ensures first[c] == all[c] {
      var k :| 0 <= k < |fs| && columns[k].orgName == c;
    }
    assert first.Keys == all.Keys;
  }

  lemma OverriddenValues(columns: seq<Column>, fs: seq<Field>, a: Option<Assigned>)
    requires DistinctNames(columns) && |fs| <= |columns|
    ensures forall i :: 0 <= i < |fs| ==> columns[i].orgName in OverriddenBy(RowOf(columns, fs), a)
    ensures Values(columns, OverriddenBy(RowOf(columns, fs), a), |fs|) == Replaced(columns, fs, a)
  {
    hide RowOf;
    RowOfDistinct(columns, fs);
    var row := OverriddenBy(RowOf(columns, fs), a);
    assert row.Keys == RowOf(columns, fs).Keys;
    forall i | 0 <= i < |fs| ensures row[columns[i].orgName] == Replaced(columns, fs, a)[i] {
      assert columns[i].orgName in RowOf(columns, fs);
    }
  }

  /** Pointwise rewrite: under distinct names the row is tested as sent, exactly the columns the
      last matching entry assigns are replaced, and it is dropped if and only if the SELECT's
      condition is false on the result. With no match an ASCII row keeps its body. */
  lemma PointwiseRewrite(columns: seq<Column>, fs: seq<Field>, log: Log, selection: Option<Expr>)
    requires DistinctNames(columns) && |fs| <= |columns| && Encodable(fs)
    requires Rewrite(columns, EncodeRow(fs), log, selection).Done?
    ensures var row := RowOf(columns, WidenAll(fs));
      var out := Rewrite(columns, EncodeRow(fs), log, selection).value;
      && LastMatch(row, log).Done?
      && out.body == EncodeRow(Replaced(columns, WidenAll(fs), LastMatch(row, log).value))
      && Dropped(OverriddenBy(row, LastMatch(row, log).value), selection) == Done(out.dropped)
      && (LastMatch(row, log).value.None? && AsciiFields(fs) ==> out.body == EncodeRow(fs))
  {
    hide RowOf, LastMatch, EncodeRow, ParseFields, Evaluate;
    RowRoundTrip(fs);
    var ws := WidenAll(fs);
    assert RowFromBody(columns, EncodeRow(fs)) == Done(RowOf(columns, ws));
    var a := LastMatch(RowOf(columns, ws), log).value;
    OverrideIsComplete(columns, ws, a);
    OverriddenValues(columns, ws, a);
    if a.None? && AsciiFields(fs) {
      assert Replaced(columns, ws, a) == fs;
    }
  }

  /** The row meets every need of the condition's evaluation. */
  predicate Decided(row: Row, selection: Option<Expr>) {
    selection.Some? ==> AllMet(row, Needs(row, selection.value))
  }

  predicate AllDecided(row: Row, log: Log) {
    forall i :: 0 <= i < |log| ==> Decided(row, log[i].selection)
  }

  lemma {:induction false} LastMatchDone(row: Row, log: Log)
    ensures LastMatch(row, log).Done? <==> AllDecided(row, log)
    decreases |log|
  {
    hide Needs, Evaluate, AllMet;
    if log != [] {
      var n := |log| - 1;
      LastMatchDone(row, log[..n]);
      assert forall i :: 0 <= i < n ==> log[..n][i] == log[i];
      if log[n].selection.Some? {
        PanicsIffUnmet(row, log[n].selection.value);
      }
      assert AllDecided(row, log) <==> AllDecided(row, log[..n]) && Decided(row, log[n].selection);
    }
  }

  /** The row map after overriding, if the log can be evaluated. */
  function RewrittenRow(columns: seq<Column>, row: Row, log: Log): (r: Row)
    requires |row| <= |columns|
    ensures r.Keys == row.Keys
  {
    match LastMatch(row, log) case Panic(_) => row case Done(a) => OverrideFirst(columns, row, a, |row|)
  }

  /** Whatever the conditions, the rewriter gets through a row if and only if there is a column for
      every field, the row meets all needs of the logged selections, and the rewritten row those of
      the SELECT's condition; otherwise it panics. */
  lemma RewriteIsSafe(columns: seq<Column>, fs: seq<Field>, log: Log, selection: Option<Expr>)
    requires Encodable(fs)
    ensures Rewrite(columns, EncodeRow(fs), log, selection).Done? <==>
      && |fs| <= |columns|
      && var row := RowOf(columns, WidenAll(fs));
      && AllDecided(row, log)
      && Decided(RewrittenRow(columns, row, log), selection)
  {
    hide EncodeRow, ParseFields, Needs, AllMet, Evaluate, RowOf, LastMatch;
    RowRoundTrip(fs);
    if |fs| <= |columns| {
      var row := RowOf(columns, WidenAll(fs));
      LastMatchDone(row, log);
      if selection.Some? {
        PanicsIffUnmet(RewrittenRow(columns, row, log), selection.value);
      }
    }
  }

  /** A canonical row is never taken for EOF or an error; it is taken for an OK packet exactly when
      its first column is the empty string and its body has at least 7 bytes. */
  lemma RowClassification(fs: seq<Field>)
    requires fs != []
    ensures EncodeRow(fs) != []
    ensures var t := Classify(EncodeRow(fs), PendingResponse);
      t == if fs[0] == Some([]) && |EncodeRow(fs)| >= 7 then OkPacket else OtherPacket
  {
    var first := EncodeField(fs[0]);
    assert EncodeRow(fs)[0] == first[0];
    if fs[0].Some? && fs[0].value != [] {
      var n := |fs[0].value|;
      assert first[0] == EncodeLenEnc(n)[0];
      assert EncodeLenEnc(n)[0] == 0xFE ==> |EncodeRow(fs)| > 9;
    }
  }

  // ---- Bodies in shortest form, as servers send them

  /** No other encoding of the same number is shorter. */
  ghost predicate Shortest(s: seq<byte>) {
    exists v :: Encodes(s, v) && forall t | Encodes(t, v) :: |s| <= |t|
  }

  lemma ShortestIsEncoded(s: seq<byte>)
    requires Shortest(s)
    ensures DecodeLenEnc(s).Done? && DecodeLenEnc(s).value.result < U64
        && s == EncodeLenEnc(DecodeLenEnc(s).value.result)
  {
    hide DecodeLenEnc, EncodeLenEnc;
    var v :| Encodes(s, v) && forall t | Encodes(t, v) :: |s| <= |t|;
    EncodingIsShortest(s, v);
  }

  /** A row body field by field: 0xFB for NULL, or a length in shortest form and as many ASCII bytes. */
  ghost predicate Canonical(body: seq<byte>)
    decreases |body|
  {
    if body == [] then true
    else if body[0] == 0xFB then Canonical(body[1..])
    else
      && DecodeText(body).Done?
      && var n := DecodeLenEnc(body).value; var end := DecodeText(body).value.increment;
      && Shortest(body[..n.increment]) && Ascii(body[n.increment..end]) && Canonical(body[end..])
  }

  /** Such a body is the encoding of its fields, and these are ASCII. */
  lemma {:induction false} CanonicalIsEncoded(body: seq<byte>) returns (fs: seq<Field>)
    requires Canonical(body)
    ensures body == EncodeRow(fs) && Encodable(fs) && AsciiFields(fs)
    decreases |body|
  {
    hide DecodeLenEnc, EncodeLenEnc, Shortest, Ascii, Widen;
    if body == [] {
      fs := [];
    } else {
      var first: Field, width := None, 1;
      if body[0] != 0xFB {
        var n := DecodeLenEnc(body).value;
        width := DecodeText(body).value.increment;
        first := Some(body[n.increment..width]);
        PrefixDecodes(body);
        ShortestIsEncoded(body[..n.increment]);
        assert body[..width] == body[..n.increment] + body[n.increment..width];
      }
      var rest := CanonicalIsEncoded(body[width..]);
      fs := [first] + rest;
      assert fs[1..] == rest && body == body[..width] + body[width..];
    }
  }

  /** A number decodes from its own bytes as it does with more bytes after them. */
  lemma PrefixDecodes(body: seq<byte>)
    requires DecodeLenEnc(body).Done?
    ensures DecodeLenEnc(body[..DecodeLenEnc(body).value.increment]) == DecodeLenEnc(body)
  {
    hide FromLittleEndian;
    var k := DecodeLenEnc(body).value.increment;
    var w := LenEncWidth(body[0]);
    assert body[..k][1..1 + w] == body[1..1 + w];
  }

  /** A row in shortest form that no entry matches leaves as it came, byte for byte. */
  lemma UnmatchedRowIsKept(columns: seq<Column>, body: seq<byte>, log: Log, selection: Option<Expr>)
    requires DistinctNames(columns) && Canonical(body) && Rewrite(columns, body, log, selection).Done?
    requires var row := RowFromBody(columns, body); row.Done? && LastMatch(row.value, log) == Done(None)
    ensures Rewrite(columns, body, log, selection).value.body == body
  {
    hide Canonical, RowOf, LastMatch, EncodeRow, ParseFields, Evaluate, Dropped;
    var fs := CanonicalIsEncoded(body);
    RowRoundTrip(fs);
    PointwiseRewrite(columns, fs, log, selection);
  }
}
