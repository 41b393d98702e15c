/** qp_server.c: the row decoder of execute_redis_cmd, for replies to a query with several columns. */
module QueryProcessor {
  import opened Sds
  import opened Text
  import opened Resp
  import opened DictSpec
  import opened DictTable
  import opened SplitArgs
  import opened Translator
  import opened Walk
  import K = Keyspace
  import opened Aof

  type Cells = seq<Option<Bytes>>

  /** Garbled: decoding would leave the received text, so it is no reply to HGETALL. */
  datatype Decoded = Pending | Row(cells: Cells) | Garbled

  /** strstr for a line end: it stops at NUL. */
  function FindCrlf(s: Bytes): (p: Option<nat>)
    ensures p.Some? ==> p.value + 2 <= |s|
  {
    if |s| < 2 || s[0] == '\0' then None
    else if s[0] == '\r' && s[1] == '\n' then Some(0)
    else if FindCrlf(s[1..]).None? then None
    else Some(1 + FindCrlf(s[1..]).value)
  }

  datatype Piece = Cut | Outside | Piece(data: Bytes, rest: Bytes)

  /** A length, a line end and that many bytes; the type byte is not looked at. */
  function ReadPiece(cur: Bytes): (r: Piece)
    ensures r.Piece? ==> |r.rest| < |cur|
  {
    if cur == [] then Outside
    else
      var len := Atoi(cur[1..]);
      var p := FindCrlf(cur);
      if p.None? then Cut
      else
        var body := cur[p.value + 2..];
        if len < 0 || len + 2 > |body| then Outside else Piece(body[..len], body[len + 2..])
  }

  /** strcasecmp. */
  predicate SameName(a: Bytes, b: Bytes) { K.Upper(K.CStr(a)) == K.Upper(K.CStr(b)) }

  /** The same letter in upper or lower case, or the same character. */
  ghost predicate SameLetter(a: char, b: char)
  {
    a == b || ('a' <= a <= 'z' && a as int == b as int + 32) || ('a' <= b <= 'z' && b as int == a as int + 32)
  }

  lemma SameNameMeans(a: Bytes, b: Bytes)
    requires '\0' !in a && '\0' !in b
    ensures SameName(a, b) <==> |a| == |b| && forall i :: 0 <= i < |a| ==> SameLetter(a[i], b[i])
  {
    NoNulNoCut(a);
    NoNulNoCut(b);
    UpperEach(a);
    UpperEach(b);
    var x, y := K.Upper(a), K.Upper(b);
    hide K.Upper, K.UpperChar, SameLetter;
    forall i | 0 <= i < |a| && i < |b| ensures x[i] == y[i] <==> SameLetter(a[i], b[i]) {
      LettersMatch(a[i], b[i]);
    }
    if |a| == |b| && forall i :: 0 <= i < |a| ==> SameLetter(a[i], b[i]) {
      assert x == y;
    }
  }

  lemma LettersMatch(a: char, b: char)
    ensures K.UpperChar(a) == K.UpperChar(b) <==> SameLetter(a, b)
  {
  }

  lemma {:induction false} UpperEach(s: Bytes)
    ensures forall i :: 0 <= i < |s| ==> K.Upper(s)[i] == K.UpperChar(s[i])
  {
    if s != [] {
      UpperEach(s[1..]);
      assert K.Upper(s) == [K.UpperChar(s[0])] + K.Upper(s[1..]);
    }
  }

  function Truncated(name: Bytes): Bytes { if |name| < 127 then name else name[..127] }

  ghost function ColumnOf(headers: seq<Bytes>, name: Bytes): (c: int)
    ensures -1 <= c < |headers|
  {
    if headers == [] then -1
    else if SameName(headers[0], name) then 0
    else if ColumnOf(headers[1..], name) == -1 then -1 else 1 + ColumnOf(headers[1..], name)
  }

  ghost function Place(cells: Cells, headers: seq<Bytes>, name: Bytes, val: Bytes): (r: Cells)
    requires |cells| == |headers|
    ensures |r| == |headers|
  {
    var c := ColumnOf(headers, Truncated(name));
    if c == -1 then cells else cells[c := Some(val)]
  }

  /** k more pairs, read from cur. */
  ghost function DecodePairs(cur: Bytes, k: nat, headers: seq<Bytes>, cells: Cells): Decoded
    requires |cells| == |headers|
  {
    if k == 0 then Row(cells)
    else
      match ReadPiece(cur)
      case Cut => Row(cells)
      case Outside => Garbled
      case Piece(name, rest) =>
        match ReadPiece(rest)
        case Cut => Row(cells)
        case Outside => Garbled
        case Piece(val, rest) => DecodePairs(rest, k - 1, headers, Place(cells, headers, name, val))
  }

  function Nulls(n: nat): Cells { seq(n, _ => None) }

  ghost function DecodeReply(buf: Bytes, headers: seq<Bytes>): Decoded
    requires buf != []
  {
    var p := FindCrlf(buf);
    if p.None? then Pending
    else DecodePairs(buf[p.value + 2..], (Max(Atoi(buf[1..]), 0) + 1) / 2, headers, Nulls(|headers|))
  }

  function Max(a: int, b: int): int { if a > b then a else b }

  method FindColumn(headers: seq<Bytes>, name: Bytes) returns (c: int)
    ensures c == ColumnOf(headers, name)
  {
    c := 0;
    while c < |headers|
      invariant 0 <= c <= |headers|
      invariant var rest := ColumnOf(headers[c..], name); ColumnOf(headers, name) == if rest == -1 then -1 else c + rest
    {
      if SameName(headers[c], name) { return; }
      c := c + 1;
    }
    return -1;
  }

  /** The branch for an array reply to a query with several columns. */
  method DecodeRow(buf: Bytes, headers: seq<Bytes>) returns (r: Decoded)
    requires buf != [] && |headers| >= 2
    ensures r == DecodeReply(buf, headers)
  {
    hide ReadPiece, ColumnOf;
    var numElements := Atoi(buf[1..]);
    var eol := FindCrlf(buf);
    if eol.None? { return Pending; }
    var current := buf[eol.value + 2..];
    var row := Nulls(|headers|);
    var i := 0;
    while i < numElements
      invariant 0 <= i && i % 2 == 0 && i <= Max(numElements, 0) + 1 && |row| == |headers|
      invariant DecodeReply(buf, headers) == DecodePairs(current, (Max(numElements - i, 0) + 1) / 2, headers, row)
    {
      var field := ReadPiece(current);
      if field.Cut? { break; }
      if field.Outside? { return Garbled; }
      var val := ReadPiece(field.rest);
      if val.Cut? { break; }
      if val.Outside? { return Garbled; }
      var col := FindColumn(headers, Truncated(field.data));
      if col != -1 { row := row[col := Some(val.data)]; }
      current := val.rest;
      i := i + 2;
    }
    r := Row(row);
  }

  // ----- decoding well-formed replies -----

  lemma AtoiThen(n: nat, rest: Bytes)
    requires rest != [] && !IsDigit(rest[0])
    ensures Atoi(Dec(n) + rest) == n
  {
    AtoiOfDec(n);
    DigitsAppend(Dec(n), rest, 0);
    DigitsOfDec(n);
    assert IsDigit((Dec(n) + rest)[0]);
  }

  lemma {:induction false} CrlfAfter(a: Bytes, rest: Bytes)
    requires '\r' !in a && '\0' !in a
    ensures FindCrlf(a + (CRLF + rest)) == Some(|a|)
  {
    var s := a + (CRLF + rest);
    if a != [] {
      assert s[1..] == a[1..] + (CRLF + rest);
      CrlfAfter(a[1..], rest);
    }
  }

  lemma HeaderRead(c: char, n: nat, rest: Bytes)
    requires c != '\r' && c != '\0'
    ensures var s := [c] + Dec(n) + CRLF + rest;
            Atoi(s[1..]) == n && FindCrlf(s) == Some(|Dec(n)| + 1) && s[|Dec(n)| + 3..] == rest
  {
    hide Dec;
    var s := [c] + Dec(n) + CRLF + rest;
    assert s[1..] == Dec(n) + (CRLF + rest);
    AtoiThen(n, CRLF + rest);
    CrlfAfter([c] + Dec(n), rest);
    assert s == ([c] + Dec(n)) + (CRLF + rest);
  }

  lemma PieceOfBulk(a: Bytes, rest: Bytes)
    ensures ReadPiece(Bulk(a) + rest) == Piece(a, rest)
  {
    hide Dec, Atoi, FindCrlf;
    var body := a + CRLF + rest;
    var s := Bulk(a) + rest;
    assert s == ['$'] + Dec(|a|) + CRLF + body;
    HeaderRead('$', |a|, body);
    assert body[..|a|] == a && body[|a| + 2..] == rest;
  }

  ghost function PlaceAll(cells: Cells, headers: seq<Bytes>, es: seq<Entry<Bytes>>): (r: Cells)
    requires |cells| == |headers|
    ensures |r| == |headers|
    decreases |es|
  {
    if es == [] then cells else PlaceAll(Place(cells, headers, es[0].key, es[0].val), headers, es[1..])
  }

  lemma {:induction false} FieldsFront(es: seq<Entry<Bytes>>)
    requires es != []
    ensures Fields(es) == [es[0].key, es[0].val] + Fields(es[1..])
  {
    if |es| == 1 {
      assert es[..0] == [] && es[1..] == [];
      assert Fields([]) == [];
    } else {
      var n := |es| - 1;
      FieldsFront(es[..n]);
      assert es[..n][1..] == es[1..][..n - 1];
    }
  }

  lemma {:induction false} PairsDecode(es: seq<Entry<Bytes>>, headers: seq<Bytes>, cells: Cells)
    requires |cells| == |headers|
    ensures DecodePairs(Bulks(Fields(es)), |es|, headers, cells) == Row(PlaceAll(cells, headers, es))
    decreases |es|
  {
    hide ReadPiece, Place, Bulk;
    if es != [] {
      var e, rest := es[0], Bulks(Fields(es[1..]));
      FieldsFront(es);
      BulksAppend([e.key, e.val], Fields(es[1..]));
      TwoBulks(e.key, e.val);
      assert Bulk(e.key) + Bulk(e.val) + rest == Bulk(e.key) + (Bulk(e.val) + rest);
      PieceOfBulk(e.key, Bulk(e.val) + rest);
      PieceOfBulk(e.val, rest);
      PairsDecode(es[1..], headers, Place(cells, headers, e.key, e.val));
    }
  }

  /** Whatever the order of its pairs, a reply to HGETALL is decoded pair by pair. */
  lemma ReplyDecodes(es: seq<Entry<Bytes>>, headers: seq<Bytes>)
    ensures DecodeReply(Encode(Fields(es)), headers) == Row(PlaceAll(Nulls(|headers|), headers, es))
  {
    hide Dec, Atoi, FindCrlf, Bulks, Fields, DecodePairs, PlaceAll, Encode;
    FieldsLength(es);
    var n := |Fields(es)|;
    ArrayText(Fields(es));
    HeaderRead('*', n, Bulks(Fields(es)));
    PairsDecode(es, headers, Nulls(|headers|));
  }

  lemma ArrayText(args: seq<Bytes>)
    ensures Encode(args) == ['*'] + Dec(|args|) + CRLF + Bulks(args)
  {
  }

  // ----- columns -----

  /** Column names that differ by more than case, and fit the decoder's buffer. */
  ghost predicate GoodHeaders(headers: seq<Bytes>)
  {
    && (forall i :: 0 <= i < |headers| ==> '\0' !in headers[i] && |headers[i]| <= 127)
    && forall i, j :: 0 <= i < j < |headers| ==> K.Upper(headers[i]) != K.Upper(headers[j])
  }

  lemma {:induction false} OwnColumn(headers: seq<Bytes>, c: nat)
    requires GoodHeaders(headers) && c < |headers|
    ensures ColumnOf(headers, headers[c]) == c
  {
    NoNulNoCut(headers[0]);
    NoNulNoCut(headers[c]);
    if c > 0 {
      OwnColumn(headers[1..], c - 1);
    }
  }

  lemma {:induction false} PlaceAllSpec(cells: Cells, headers: seq<Bytes>, es: seq<Entry<Bytes>>, c: nat)
    requires |cells| == |headers| && GoodHeaders(headers) && Distinct(es) && c < |headers|
    requires forall i :: 0 <= i < |es| ==> es[i].key in headers
    ensures PlaceAll(cells, headers, es)[c]
         == if Find(es, headers[c]).Some? then Some(Find(es, headers[c]).value.val) else cells[c]
    decreases |es|
  {
    hide ColumnOf;
    if es != [] {
      var x :| 0 <= x < |headers| && headers[x] == es[0].key;
      OwnColumn(headers, x);
      assert Truncated(headers[x]) == headers[x];
      var rest := es[1..];
      assert forall i :: 0 <= i < |rest| ==> rest[i] == es[i + 1];
      PlaceAllSpec(Place(cells, headers, es[0].key, es[0].val), headers, rest, c);
      if x == c {
        FindNone(rest, headers[c]);
      } else {
        assert K.Upper(headers[x]) != K.Upper(headers[c]);
      }
    }
  }

  /** What a stored row is expected to look like when read back. */
  ghost function RowCells(headers: seq<Bytes>, h: K.Fields): Cells
  {
    seq(|headers|, c requires 0 <= c < |headers| => if headers[c] in h then Some(h[headers[c]]) else None)
  }

  /** A hash whose fields are columns is shown column by column, in whatever order its dictionary is walked. */
  lemma HashShown(headers: seq<Bytes>, h: K.Fields, es: seq<Entry<Bytes>>)
    requires GoodHeaders(headers) && h.Keys <= (set c | c in headers) && Lists(es, K.AsStore(h))
    ensures DecodeReply(Encode(Fields(es)), headers) == Row(RowCells(headers, h))
  {
    hide DecodeReply, PlaceAll, GoodHeaders;
    ReplyDecodes(es, headers);
    var cells := PlaceAll(Nulls(|headers|), headers, es);
    forall c | 0 <= c < |headers| ensures cells[c] == RowCells(headers, h)[c] {
      assert forall i :: 0 <= i < |es| ==> es[i].key in h;
      PlaceAllSpec(Nulls(|headers|), headers, es, c);
      FindMember(es, headers[c]);
      if headers[c] in h {
        assert headers[c] in K.AsStore(h);
      }
    }
    assert cells == RowCells(headers, h);
  }
}
