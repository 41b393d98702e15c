/** resp.c: the parser of command arrays, against every encoder that produces them. */
module Resp {
  import opened Sds
  import opened Text

  const CRLF: Bytes := "\r\n"
  const INT_MAX: int := 0x7fff_ffff

  // ----- encoding -----

  function Bulk(a: Bytes): Bytes { "$" + Dec(|a|) + CRLF + a + CRLF }

  function Bulks(args: seq<Bytes>): Bytes
  {
    if args == [] then [] else Bulk(args[0]) + Bulks(args[1..])
  }

  function Encode(args: seq<Bytes>): Bytes { "*" + Dec(|args|) + CRLF + Bulks(args) }

  lemma {:induction false} BulksAppend(a: seq<Bytes>, b: seq<Bytes>)
    ensures Bulks(a + b) == Bulks(a) + Bulks(b)
  {
    if a == [] {
      assert a + b == b;
    } else {
      assert (a + b)[1..] == a[1..] + b;
      BulksAppend(a[1..], b);
    }
  }

  /** encode_cmd of the client library, and the loop that the query processor runs over split arguments. */
  method EncodeCmd(parts: seq<Bytes>) returns (buf: Bytes)
    ensures buf == Encode(parts)
  {
    buf := "*" + Dec(|parts|) + CRLF;
    for i := 0 to |parts|
      invariant buf == "*" + Dec(|parts|) + CRLF + Bulks(parts[..i])
    {
      assert parts[..i + 1] == parts[..i] + [parts[i]];
      BulksAppend(parts[..i], [parts[i]]);
      buf := buf + ("$" + Dec(|parts[i]|) + CRLF + parts[i] + CRLF);
    }
    assert parts[..|parts|] == parts;
  }

  // ----- parsing -----

  /** The parser's int results: 0, -1, and the number of bytes consumed. */
  datatype Parse = Incomplete | Invalid | Parsed(argv: seq<Bytes>, consumed: nat)

  /** How many bytes go into the 64-byte line buffer. */
  function LineLen(s: Bytes, room: nat): (j: nat)
    ensures j <= |s| && j <= room
  {
    if s == [] || room == 0 || s[0] == '\r' then 0 else 1 + LineLen(s[1..], room - 1)
  }

  datatype Header = NoHeader | Header(value: int, size: nat)

  /** A number and its CRLF; no header if the line is cut off or too long. */
  function ReadHeader(s: Bytes): (h: Header)
    ensures h.Header? ==> 0 < h.size <= |s|
  {
    var j := LineLen(s, 63);
    if j + 1 >= |s| || s[j] != '\r' || s[j + 1] != '\n' then NoHeader else Header(Atoi(s[..j]), j + 2)
  }

  datatype Chunk = NoChunk | BadChunk | Chunk(data: Bytes, size: nat)

  /** One bulk string. A wrong terminator counts as missing input, not as an error. */
  function ParseItem(s: Bytes): (r: Chunk)
    ensures r.Chunk? ==> 0 < r.size <= |s|
  {
    if s == [] then NoChunk
    else if s[0] != '$' then BadChunk
    else
      var h := ReadHeader(s[1..]);
      if h.NoHeader? then NoChunk
      else if h.value < 0 then BadChunk
      else
        var p := 1 + h.size;
        if p + h.value + 2 > |s| then NoChunk
        else if s[p + h.value] != '\r' || s[p + h.value + 1] != '\n' then NoChunk
        else Chunk(s[p..p + h.value], p + h.value + 2)
  }

  function ParseItems(s: Bytes, k: nat): (r: Parse)
    ensures r.Parsed? ==> r.consumed <= |s| && |r.argv| == k
    decreases k
  {
    if k == 0 then Parsed([], 0)
    else
      match ParseItem(s)
      case NoChunk => Incomplete
      case BadChunk => Invalid
      case Chunk(data, size) => After([data], size, ParseItems(s[size..], k - 1))
  }

  /** A parse that continues one already begun. */
  function After(argv: seq<Bytes>, consumed: nat, rest: Parse): Parse
  {
    if rest.Parsed? then Parsed(argv + rest.argv, consumed + rest.consumed) else rest
  }

  function ParseArray(s: Bytes): (r: Parse)
    ensures r.Parsed? ==> 0 < r.consumed <= |s|
  {
    if s == [] then Incomplete
    else if s[0] != '*' then Invalid
    else
      var h := ReadHeader(s[1..]);
      if h.NoHeader? then Incomplete
      else if h.value <= 0 then Parsed([], 1 + h.size)
      else
        var items := ParseItems(s[1 + h.size..], h.value);
        if items.Parsed? then Parsed(items.argv, 1 + h.size + items.consumed) else items
  }

  /** The line loop, from pos on: the text read and the index it stops at. */
  method ReadLine(input: Bytes, pos: nat) returns (line: Bytes, i: nat)
    requires pos <= |input|
    ensures var j := LineLen(input[pos..], 63); i == pos + j && line == input[pos..i]
  {
    i := pos;
    line := "";
    while i < |input| && |line| + 1 < 64 && input[i] != '\r'
      invariant pos <= i <= |input| && line == input[pos..i] && |line| <= 63
      invariant LineLen(input[pos..], 63) == |line| + LineLen(input[i..], 63 - |line|)
    {
      line := line + [input[i]];
      i := i + 1;
    }
  }

  /** Reads a line, checks its CRLF and converts it. */
  method ReadNumber(input: Bytes, pos: nat) returns (h: Header)
    requires pos <= |input|
    ensures h == ReadHeader(input[pos..])
  {
    var line, i := ReadLine(input, pos);
    if i + 1 >= |input| || input[i] != '\r' || input[i + 1] != '\n' { return NoHeader; }
    assert input[pos..][..i - pos] == line;
    return Header(Atoi(line), i + 2 - pos);
  }

  method RespParseArray(input: Bytes) returns (r: Parse)
    ensures r == ParseArray(input)
  {
    hide ReadHeader, ParseItems;
    var pos := 0;
    if pos >= |input| { return Incomplete; }
    if input[pos] != '*' { return Invalid; }
    var h := ReadNumber(input, pos + 1);
    if h.NoHeader? { return Incomplete; }
    var n := h.value;
    pos := 1 + h.size;
    if n <= 0 { return Parsed([], pos); }
    r := ReadItems(input, pos, n);
    if r.Parsed? { r := Parsed(r.argv, pos + r.consumed); }
  }

  method ReadItems(input: Bytes, start: nat, n: nat) returns (r: Parse)
    requires start <= |input|
    ensures r == ParseItems(input[start..], n)
  {
    hide ParseItem, After;
    AfterNothing(ParseItems(input[start..], n));
    var pos := start;
    var argv: seq<Bytes> := [];
    for k := 0 to n
      invariant start <= pos <= |input|
      invariant ParseItems(input[start..], n) == After(argv, pos - start, ParseItems(input[pos..], n - k))
    {
      var item := ReadItem(input, pos);
      match item {
        case NoChunk =>
          AfterFailure(argv, pos - start, Incomplete);
          return Incomplete;
        case BadChunk =>
          AfterFailure(argv, pos - start, Invalid);
          return Invalid;
        case Chunk(data, size) =>
          assert input[pos..][size..] == input[pos + size..];
          AfterAfter(argv, pos - start, [data], size, ParseItems(input[pos + size..], n - k - 1));
          argv := argv + [data];
          pos := pos + size;
      }
    }
    AfterEnd(argv, pos - start);
    return Parsed(argv, pos - start);
  }

  method ReadItem(input: Bytes, pos: nat) returns (r: Chunk)
    requires pos <= |input|
    ensures r == ParseItem(input[pos..])
  {
    hide ReadHeader;
    if pos >= |input| { return NoChunk; }
    if input[pos] != '$' { return BadChunk; }
    assert input[pos..][1..] == input[pos + 1..];
    var h := ReadNumber(input, pos + 1);
    if h.NoHeader? { return NoChunk; }
    var len := h.value;
    var data := pos + 1 + h.size;
    if len < 0 { return BadChunk; }
    if data + len + 2 > |input| { return NoChunk; }
    var next := data + len;
    if next + 1 >= |input| || input[next] != '\r' || input[next + 1] != '\n' { return NoChunk; }
    assert input[pos..][data - pos..next - pos] == input[data..next];
    return Chunk(input[data..next], next + 2 - pos);
  }

  lemma AfterNothing(rest: Parse)
    ensures After([], 0, rest) == rest
  {
    if rest.Parsed? { assert [] + rest.argv == rest.argv; }
  }

  lemma AfterFailure(a: seq<Bytes>, m: nat, rest: Parse)
    requires !rest.Parsed?
    ensures After(a, m, rest) == rest
  {
  }

  lemma AfterEnd(a: seq<Bytes>, m: nat)
    ensures After(a, m, Parsed([], 0)) == Parsed(a, m)
  {
    assert a + [] == a;
  }

  lemma AfterAfter(a: seq<Bytes>, m: nat, b: seq<Bytes>, n: nat, rest: Parse)
    ensures After(a, m, After(b, n, rest)) == After(a + b, m + n, rest)
  {
    if rest.Parsed? {
      assert a + (b + rest.argv) == (a + b) + rest.argv;
    }
  }

  // ----- the parser inverts the encoder -----

  /** A header is found whatever follows it. */
  lemma HeaderFound(n: nat, rest: Bytes)
    requires |Dec(n)| <= 63
    ensures ReadHeader(Dec(n) + CRLF + rest) == Header(n, |Dec(n)| + 2)
  {
    var s := Dec(n) + CRLF + rest;
    LineStopsAtCr(Dec(n), "\n" + rest, 63);
    assert s == Dec(n) + ("\r" + ("\n" + rest));
    assert s[..|Dec(n)|] == Dec(n);
    AtoiOfDec(n);
  }

  lemma {:induction false} LineStopsAtCr(d: Bytes, rest: Bytes, room: nat)
    requires |d| <= room && '\r' !in d
    ensures LineLen(d + ("\r" + rest), room) == |d|
  {
    var s := d + ("\r" + rest);
    if d != [] {
      assert s[1..] == d[1..] + ("\r" + rest);
      LineStopsAtCr(d[1..], rest, room - 1);
    }
  }

  /** A header cut anywhere before its last byte is no header. */
  lemma HeaderCut(n: nat, k: nat)
    requires k < |Dec(n)| + 2
    ensures ReadHeader((Dec(n) + CRLF)[..k]).NoHeader?
  {
    var d := Dec(n);
    var s := (d + CRLF)[..k];
    if k <= |d| {
      assert s == d[..k];
      LineAll(s, 63);
    } else {
      assert s == d + ("\r" + "");
      LineNotPast(d, 63);
    }
  }

  lemma {:induction false} LineAll(s: Bytes, room: nat)
    requires '\r' !in s
    ensures LineLen(s, room) == if |s| <= room then |s| else room
  {
    if s != [] && room > 0 { LineAll(s[1..], room - 1); }
  }

  lemma {:induction false} LineNotPast(d: Bytes, room: nat)
    requires '\r' !in d
    ensures var s := d + ("\r" + ""); var j := LineLen(s, room);
            j <= |d| && (j < |d| ==> j == room && s[j] != '\r')
  {
    var s := d + ("\r" + "");
    if d != [] && room > 0 {
      assert s[1..] == d[1..] + ("\r" + "");
      LineNotPast(d[1..], room - 1);
    }
  }

  ghost predicate ShortHeaders(args: seq<Bytes>) { forall i :: 0 <= i < |args| ==> |Dec(|args[i]|)| <= 63 }

  lemma BulkParses(a: Bytes, tail: Bytes)
    requires |Dec(|a|)| <= 63
    ensures ParseItem(Bulk(a) + tail) == Chunk(a, |Bulk(a)|)
  {
    hide ReadHeader, Dec;
    var s := Bulk(a) + tail;
    var p := 1 + |Dec(|a|)| + 2;
    assert s[1..] == Dec(|a|) + CRLF + (a + CRLF + tail);
    HeaderFound(|a|, a + CRLF + tail);
    assert s[p..p + |a|] == a;
  }

  lemma {:induction false} ItemsRoundTrip(args: seq<Bytes>, tail: Bytes)
    requires ShortHeaders(args)
    ensures ParseItems(Bulks(args) + tail, |args|) == Parsed(args, |Bulks(args)|)
  {
    hide ParseItem, Bulk;
    if args != [] {
      var rest := Bulks(args[1..]) + tail;
      assert Bulks(args) + tail == Bulk(args[0]) + rest;
      BulkParses(args[0], rest);
      assert (Bulk(args[0]) + rest)[|Bulk(args[0])|..] == rest;
      ItemsRoundTrip(args[1..], tail);
      assert |Bulks(args)| == |Bulk(args[0])| + |Bulks(args[1..])|;
      assert [args[0]] + args[1..] == args;
    }
  }

  /** A bulk string cut anywhere is incomplete. */
  lemma BulkCut(a: Bytes, k: nat)
    requires |Dec(|a|)| <= 63 && k < |Bulk(a)|
    ensures ParseItem(Bulk(a)[..k]) == NoChunk
  {
    hide ReadHeader, Dec;
    var s := Bulk(a)[..k];
    var h := |Dec(|a|)| + 2;
    assert Bulk(a) == "$" + (Dec(|a|) + CRLF) + (a + CRLF);
    if k == 0 {
    } else if k <= h {
      assert s[1..] == (Dec(|a|) + CRLF)[..k - 1];
      HeaderCut(|a|, k - 1);
    } else {
      assert s[1..] == Dec(|a|) + CRLF + (a + CRLF)[..k - 1 - h];
      HeaderFound(|a|, (a + CRLF)[..k - 1 - h]);
    }
  }

  lemma {:induction false} ItemsCut(args: seq<Bytes>, k: nat)
    requires ShortHeaders(args) && k < |Bulks(args)|
    ensures ParseItems(Bulks(args)[..k], |args|) == Incomplete
  {
    hide ParseItem, Bulk;
    var b := Bulk(args[0]);
    if k < |b| {
      assert Bulks(args)[..k] == b[..k];
      BulkCut(args[0], k);
    } else {
      var rest := Bulks(args[1..])[..k - |b|];
      assert Bulks(args)[..k] == b + rest;
      BulkParses(args[0], rest);
      assert (b + rest)[|b|..] == rest;
      ItemsCut(args[1..], k - |b|);
    }
  }

  /** Every length in an encoding that fits the parser's int is short enough for its line buffer. */
  lemma {:induction false} LengthsFit(args: seq<Bytes>)
    requires |Bulks(args)| <= INT_MAX
    ensures ShortHeaders(args) && |args| <= |Bulks(args)|
  {
    if args != [] {
      DecFits(|args[0]|);
      LengthsFit(args[1..]);
      forall i | 0 <= i < |args| ensures |Dec(|args[i]|)| <= 63 {
        if i > 0 { assert args[i] == args[1..][i - 1]; }
      }
    }
  }

  lemma DecFits(n: nat)
    requires n <= INT_MAX
    ensures |Dec(n)| <= 63
  {
    assert Pow10(10) == 10 * Pow10(9) == 100 * Pow10(8) == 1000 * Pow10(7) == 10000 * Pow10(6) == 100000 * Pow10(5)
        == 1000000 * Pow10(4) == 10000000 * Pow10(3) == 100000000 * Pow10(2) == 1000000000 * Pow10(1);
    DecLength(n, 10);
  }

  /** Parsing an encoded command gives back its arguments and stops exactly at its end. */
  lemma ParseEncode(args: seq<Bytes>, tail: Bytes)
    requires args != [] && |Encode(args)| <= INT_MAX
    ensures ParseArray(Encode(args) + tail) == Parsed(args, |Encode(args)|)
  {
    hide ReadHeader, ParseItems, Bulks, Dec;
    LengthsFit(args);
    DecFits(|args|);
    var s := Encode(args) + tail;
    assert s[1..] == Dec(|args|) + CRLF + (Bulks(args) + tail);
    HeaderFound(|args|, Bulks(args) + tail);
    assert s[1 + |Dec(|args|)| + 2..] == Bulks(args) + tail;
    ItemsRoundTrip(args, tail);
  }

  /** Any strict prefix of an encoded command is reported as incomplete, never as an error or as another command. */
  lemma ParsePrefix(args: seq<Bytes>, k: nat)
    requires args != [] && |Encode(args)| <= INT_MAX && k < |Encode(args)|
    ensures ParseArray(Encode(args)[..k]) == Incomplete
  {
    hide ReadHeader, ParseItems, Bulks, Dec;
    LengthsFit(args);
    DecFits(|args|);
    var s := Encode(args)[..k];
    var h := |Dec(|args|)| + 2;
    assert Encode(args) == "*" + (Dec(|args|) + CRLF) + Bulks(args);
    if k == 0 {
    } else if k <= h {
      assert s[1..] == (Dec(|args|) + CRLF)[..k - 1];
      HeaderCut(|args|, k - 1);
    } else {
      assert s[1..] == Dec(|args|) + CRLF + Bulks(args)[..k - 1 - h];
      HeaderFound(|args|, Bulks(args)[..k - 1 - h]);
      assert s[1 + h..] == Bulks(args)[..k - 1 - h];
      ItemsCut(args, k - 1 - h);
    }
  }

  /** The wire format, letter by letter. */
  lemma WireExample()
    ensures Encode(["GET", "k"]) == "*2\r\n$3\r\nGET\r\n$1\r\nk\r\n"
  {
    assert Bulk("GET") == "$3\r\nGET\r\n" && Bulk("k") == "$1\r\nk\r\n";
    hide Bulk;
    assert ["GET", "k"][1..] == ["k"] && ["k"][1..] == [];
    assert Bulks(["k"]) == Bulk("k") + Bulks([]);
    assert Bulks(["GET", "k"]) == Bulk("GET") + Bulks(["k"]);
    assert Dec(2) == "2";
  }

  /** What is no array is refused at once, and so is an array in which something other than a bulk string follows whole
      ones; a count of zero or less is an array of nothing. */
  lemma Refused(n: nat, args: seq<Bytes>, junk: Bytes)
    requires |args| < n && |Dec(n)| <= 63 && (forall i :: 0 <= i < |args| ==> |Dec(|args[i]|)| <= 63)
    requires junk != []
    ensures junk[0] != '*' ==> ParseArray(junk) == Invalid
    ensures junk[0] != '$' ==> ParseArray("*" + Dec(n) + CRLF + (Bulks(args) + junk)) == Invalid
  {
    hide ReadHeader, Dec, Bulks, ParseItem;
    var s := "*" + Dec(n) + CRLF + (Bulks(args) + junk);
    assert s[1..] == Dec(n) + CRLF + (Bulks(args) + junk);
    HeaderFound(n, Bulks(args) + junk);
    assert s[1 + |Dec(n)| + 2..] == Bulks(args) + junk;
    if junk[0] != '$' { JunkRefused(n, args, junk); }
  }

  lemma {:induction false} JunkRefused(n: nat, args: seq<Bytes>, junk: Bytes)
    requires |args| < n && (forall i :: 0 <= i < |args| ==> |Dec(|args[i]|)| <= 63) && junk != [] && junk[0] != '$'
    ensures ParseItems(Bulks(args) + junk, n) == Invalid
    decreases n
  {
    hide ReadHeader, Dec, Bulk;
    if args == [] {
      assert Bulks(args) + junk == junk;
    } else {
      var tail := Bulks(args[1..]) + junk;
      assert Bulks(args) + junk == Bulk(args[0]) + tail;
      BulkParses(args[0], tail);
      assert (Bulk(args[0]) + tail)[|Bulk(args[0])|..] == tail;
      hide ParseItem;
      JunkRefused(n - 1, args[1..], junk);
    }
  }
}
