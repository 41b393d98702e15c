/** librediskrazy/client.py: the reply parser, over whatever pieces recv cuts the stream into. */
module Client {
  import opened Sds
  import opened Text
  import opened Resp

  /** A null bulk string and a null array are both Nil() to the caller. */
  datatype Reply =
    | Simple(text: Bytes) | Error(text: Bytes) | Integer(n: int) | Nil(ofArray: bool) | BulkString(data: Bytes)
    | Array(items: seq<Reply>)

  // ----- int(line) -----

  function StripRight(s: Bytes): Bytes
  {
    if s != [] && IsSpace(s[|s| - 1]) then StripRight(s[..|s| - 1]) else s
  }

  /** Digits, single underscores allowed between them. */
  function PyDigits(s: Bytes, acc: nat): Option<nat>
    decreases |s|
  {
    if s == [] || !IsDigit(s[0]) then None
    else
      var acc' := 10 * acc + Value(s[0]);
      if |s| == 1 then Some(acc')
      else if s[1] == '_' then PyDigits(s[2..], acc')
      else PyDigits(s[1..], acc')
  }

  function PyInt(s: Bytes): Option<int>
  {
    var t := StripRight(SkipSpace(s));
    var signed := t != [] && (t[0] == '-' || t[0] == '+');
    match PyDigits(if signed then t[1..] else t, 0)
    case None => None
    case Some(n) => Some(if signed && t[0] == '-' then 0 - n else n)
  }

  // ----- what a stream holds -----

  function Crlf(s: Bytes): (p: Option<nat>)
    ensures p.Some? ==> p.value + 2 <= |s|
  {
    if |s| < 2 then None
    else if s[0] == '\r' && s[1] == '\n' then Some(0)
    else if Crlf(s[1..]).None? then None
    else Some(1 + Crlf(s[1..]).value)
  }

  predicate IsType(c: char) { c == '+' || c == '-' || c == ':' || c == '$' || c == '*' }

  function SkipJunk(s: Bytes): (r: Bytes)
    ensures |r| <= |s| && (r != [] ==> IsType(r[0]))
    decreases |s|
  {
    if s == [] || IsType(s[0]) then s else SkipJunk(s[1..])
  }

  /** Closed: the stream ends first. BadNumber: int() refuses the text. BelowMinusOne: a bulk length under -1, where the
      parser's slice counts from the end of what happens to be buffered. */
  datatype Outcome<T> = Got(value: T, rest: Bytes) | Closed | BadNumber | BelowMinusOne

  function ParseValue(s: Bytes): (r: Outcome<Reply>)
    ensures r.Got? ==> |r.rest| < |s|
    decreases |s|, 0
  {
    var t := SkipJunk(s);
    if t == [] then Closed
    else
      var p := Crlf(t[1..]);
      if p.None? then Closed
      else
        var line, rest := t[1..][..p.value], t[1..][p.value + 2..];
        if t[0] == '+' then Got(Simple(line), rest)
        else if t[0] == '-' then Got(Error(line), rest)
        else
          var n := PyInt(line);
          if n.None? then BadNumber
          else if t[0] == ':' then Got(Integer(n.value), rest)
          else if n.value == -1 then Got(Nil(t[0] == '*'), rest)
          else if t[0] == '*' then
            match ParseMany(rest, n.value)
            case Got(items, rest) => Got(Array(items), rest)
            case Closed => Closed
            case BadNumber => BadNumber
            case BelowMinusOne => BelowMinusOne
          else if n.value < 0 then BelowMinusOne
          else if n.value + 2 > |rest| then Closed
          else Got(BulkString(rest[..n.value]), rest[n.value + 2..])
  }

  function ParseMany(s: Bytes, n: int): (r: Outcome<seq<Reply>>)
    ensures r.Got? ==> |r.rest| <= |s|
    decreases |s|, 1
  {
    if n <= 0 then Got([], s)
    else
      match ParseValue(s)
      case Got(v, rest) => Prepend([v], ParseMany(rest, n - 1))
      case Closed => Closed
      case BadNumber => BadNumber
      case BelowMinusOne => BelowMinusOne
  }

  function Prepend(vs: seq<Reply>, more: Outcome<seq<Reply>>): Outcome<seq<Reply>>
  {
    if more.Got? then Got(vs + more.value, more.rest) else more
  }

  // ----- the parser object -----

  ghost function Concat(chunks: seq<Bytes>): Bytes { if chunks == [] then [] else chunks[0] + Concat(chunks[1..]) }

  lemma {:induction false} CrlfMonotone(a: Bytes, b: Bytes)
    requires Crlf(a).Some?
    ensures Crlf(a + b) == Crlf(a)
  {
    assert (a + b)[1..] == a[1..] + b;
    if !(a[0] == '\r' && a[1] == '\n') {
      CrlfMonotone(a[1..], b);
    }
  }

  lemma CutBoth(a: Bytes, b: Bytes, k: nat)
    requires k <= |a|
    ensures (a + b)[..k] == a[..k] && (a + b)[k..] == a[k..] + b
  {
  }

  lemma PrependFacts(a: seq<Reply>, b: seq<Reply>, more: Outcome<seq<Reply>>, s: Bytes)
    ensures Prepend([], more) == more
    ensures Prepend(a, Prepend(b, more)) == Prepend(a + b, more)
    ensures Prepend(a, Got([], s)) == Got(a, s)
  {
    assert a + [] == a;
    if more.Got? {
      assert [] + more.value == more.value;
      assert a + (b + more.value) == (a + b) + more.value;
    }
  }

  lemma PrependFails(a: seq<Reply>, more: Outcome<seq<Reply>>)
    ensures !more.Got? ==> Prepend(a, more) == more
    ensures Prepend(a, more).Got? <==> more.Got?
  {
  }

  datatype Result = Response(reply: Reply) | ConnectionError | ValueError

  class RespParser {
    var buffer: Bytes
    /** What recv is going to return, piece by piece, until the server closes. */
    var incoming: seq<Bytes>

    ghost predicate Valid()
      reads this
    {
      forall i :: 0 <= i < |incoming| ==> incoming[i] != []
    }

    ghost function Stream(): Bytes
      reads this
    {
      buffer + Concat(incoming)
    }

    constructor (incoming: seq<Bytes>)
      requires forall i :: 0 <= i < |incoming| ==> incoming[i] != []
      ensures Valid() && Stream() == Concat(incoming)
    {
      buffer, this.incoming := [], incoming;
    }

    /** recv and extend; false when the server has closed. */
    method Receive() returns (ok: bool)
      requires Valid()
      modifies this
      ensures Valid() && Stream() == old(Stream())
      ensures ok ==> |incoming| < |old(incoming)| && buffer != []
      ensures !ok ==> buffer == old(buffer) == Stream()
    {
      if incoming == [] { return false; }
      assert buffer + (incoming[0] + Concat(incoming[1..])) == buffer + incoming[0] + Concat(incoming[1..]);
      buffer := buffer + incoming[0];
      incoming := incoming[1..];
      return true;
    }

    method ReadUntilCrlf() returns (line: Option<Bytes>)
      requires Valid()
      modifies this
      ensures Valid() && |Stream()| <= |old(Stream())|
      ensures match Crlf(old(Stream()))
              case None => line.None?
              case Some(p) => line == Some(old(Stream())[..p]) && Stream() == old(Stream())[p + 2..]
    {
      while true
        invariant Valid() && Stream() == old(Stream())
        decreases |incoming|
      {
        var idx := Crlf(buffer);
        if idx.Some? {
          CrlfMonotone(buffer, Concat(incoming));
          CutBoth(buffer, Concat(incoming), idx.value);
          CutBoth(buffer, Concat(incoming), idx.value + 2);
          line := Some(buffer[..idx.value]);
          buffer := buffer[idx.value + 2..];
          return;
        }
        var ok := Receive();
        if !ok { return None; }
      }
    }

    /** A slice with a negative bound counts from the end of the buffer. */
    method ReadExact(n: int) returns (data: Option<Bytes>)
      requires Valid()
      modifies this
      ensures Valid() && |Stream()| <= |old(Stream())|
      ensures n >= 0 ==> if n > |old(Stream())| then data.None?
                         else data == Some(old(Stream())[..n]) && Stream() == old(Stream())[n..]
    {
      while |buffer| < n
        invariant Valid() && Stream() == old(Stream())
        decreases |incoming|
      {
        var ok := Receive();
        if !ok { return None; }
      }
      var cut := if n >= 0 then n else if |buffer| + n >= 0 then |buffer| + n else 0;
      CutBoth(buffer, Concat(incoming), cut);
      data := Some(buffer[..cut]);
      buffer := buffer[cut..];
    }

    method SkipToType() returns (ok: bool)
      requires Valid()
      modifies this
      ensures Valid() && Stream() == SkipJunk(old(Stream()))
      ensures ok <==> Stream() != []
      ensures ok ==> buffer != [] && buffer[0] == Stream()[0]
    {
      while true
        invariant Valid() && SkipJunk(Stream()) == SkipJunk(old(Stream())) && |Stream()| <= |old(Stream())|
        decreases |Stream()|, |incoming|
      {
        if buffer == [] {
          var more := Receive();
          if !more { return false; }
        }
        assert Stream()[0] == buffer[0];
        if IsType(buffer[0]) { return true; }
        assert Stream()[1..] == buffer[1..] + Concat(incoming);
        buffer := buffer[1..];
      }
    }

    method ParseResponse() returns (r: Result)
      requires Valid()
      modifies this
      ensures Valid() && |Stream()| <= |old(Stream())| && (r.Response? ==> |Stream()| < |old(Stream())|)
      ensures match ParseValue(old(Stream()))
              case Got(v, rest) => r == Response(v) && Stream() == rest
              case Closed => r == ConnectionError
              case BadNumber => r == ValueError
              case BelowMinusOne => true
      decreases |Stream()|, 0
    {
      hide Crlf, SkipJunk, PyInt, ParseMany;
      var ok := SkipToType();
      if !ok { return ConnectionError; }
      var kind := buffer[0];
      assert Stream()[1..] == buffer[1..] + Concat(incoming);
      buffer := buffer[1..];
      var line := ReadUntilCrlf();
      if line.None? { return ConnectionError; }
      if kind == '+' { return Response(Simple(line.value)); }
      if kind == '-' { return Response(Error(line.value)); }
      var n := PyInt(line.value);
      if n.None? { return ValueError; }
      if kind == ':' { return Response(Integer(n.value)); }
      if n.value == -1 { return Response(Nil(kind == '*')); }
      if kind == '*' {
        r := ParseElements(n.value);
        return;
      }
      var data := ReadExact(n.value);
      if data.None? { return ConnectionError; }
      var end := ReadExact(2);
      if end.None? { return ConnectionError; }
      r := Response(BulkString(data.value));
    }

    method ParseElements(length: int) returns (r: Result)
      requires Valid()
      modifies this
      ensures Valid() && |Stream()| <= |old(Stream())|
      ensures match ParseMany(old(Stream()), length)
              case Got(vs, rest) => r == Response(Array(vs)) && Stream() == rest
              case Closed => r == ConnectionError
              case BadNumber => r == ValueError
              case BelowMinusOne => true
      decreases |Stream()|, 1
    {
      hide ParseValue, Prepend;
      PrependFacts([], [], ParseMany(Stream(), length), Stream());
      var elements := [];
      var i := 0;
      ghost var whole := ParseMany(old(Stream()), length);
      while i < length
        invariant 0 <= i && (length >= 0 ==> i <= length) && Valid() && |Stream()| <= |old(Stream())|
        invariant whole.BelowMinusOne? || whole == Prepend(elements, ParseMany(Stream(), length - i))
        decreases length - i
      {
        ghost var s := Stream();
        PrependFails(elements, ParseMany(s, length - i));
        r := ParseResponse();
        match r {
          case Response(v) =>
            PrependFacts(elements, [v], ParseMany(Stream(), length - i - 1), s);
            elements := elements + [v];
          case _ => return;
        }
        i := i + 1;
      }
      PrependFacts(elements, [], Closed, Stream());
      r := Response(Array(elements));
    }
  }

  // ----- well-formed replies -----

  function Line(kind: char, text: Bytes): Bytes { [kind] + text + CRLF }

  function EncodeReply(v: Reply): Bytes
    decreases v, 0
  {
    match v
    case Simple(t) => Line('+', t)
    case Error(t) => Line('-', t)
    case Integer(n) => Line(':', DecInt(n))
    case Nil(ofArray) => Line(if ofArray then '*' else '$', "-1")
    case BulkString(data) => Line('$', Dec(|data|)) + (data + CRLF)
    case Array(items) => Line('*', Dec(|items|)) + EncodeFrom(v, 0)
  }

  /** The elements of an array from the k-th on. */
  function EncodeFrom(v: Reply, k: nat): Bytes
    requires v.Array? && k <= |v.items|
    decreases v, 0, |v.items| - k
  {
    if k == |v.items| then [] else EncodeReply(v.items[k]) + EncodeFrom(v, k + 1)
  }

  /** A one-line text may not contain the line end. */
  ghost predicate WellFormed(v: Reply)
    decreases v
  {
    match v
    case Simple(t) => Crlf(t).None?
    case Error(t) => Crlf(t).None?
    case Array(items) => forall i :: 0 <= i < |items| ==> WellFormed(items[i])
    case _ => true
  }

  lemma {:induction false} LineFound(text: Bytes, rest: Bytes)
    requires Crlf(text).None?
    ensures Crlf(text + (CRLF + rest)) == Some(|text|)
  {
    var s := text + (CRLF + rest);
    if text != [] {
      assert s[1..] == text[1..] + (CRLF + rest);
      LineFound(text[1..], rest);
    }
  }

  lemma {:induction false} NoCrNoCrlf(s: Bytes)
    requires '\r' !in s
    ensures Crlf(s).None?
  {
    if |s| >= 2 { NoCrNoCrlf(s[1..]); }
  }

  /** The head of any reply: its type byte and its first line. */
  lemma {:induction false} HeadRead(kind: char, text: Bytes, rest: Bytes)
    requires IsType(kind) && Crlf(text).None?
    ensures var s := Line(kind, text) + rest;
            && SkipJunk(s) == s && s != [] && s[0] == kind
            && Crlf(s[1..]) == Some(|text|) && s[1..][..|text|] == text && s[1..][|text| + 2..] == rest
  {
    hide Crlf, SkipJunk;
    LineFound(text, rest);
    Cuts(kind, text, CRLF, rest);
    NoJunk(Line(kind, text) + rest);
  }

  lemma Cuts(c: char, text: Bytes, end: Bytes, rest: Bytes)
    ensures var s := [c] + text + end + rest;
            && s != [] && s[0] == c && s[1..] == text + (end + rest)
            && s[1..][..|text|] == text && s[1..][|text| + |end|..] == rest
  {
    var s := [c] + text + end + rest;
    assert s[1..] == text + (end + rest);
  }

  lemma NoJunk(s: Bytes)
    requires s != [] && IsType(s[0])
    ensures SkipJunk(s) == s
  {
  }

  lemma {:induction false} PyDigitsRead(s: Bytes, acc: nat)
    requires s != [] && forall i :: 0 <= i < |s| ==> IsDigit(s[i])
    ensures PyDigits(s, acc) == Some(Digits(s, acc))
    decreases |s|
  {
    if |s| > 1 {
      assert s[1] != '_';
      PyDigitsRead(s[1..], 10 * acc + Text.Value(s[0]));
    } else {
      assert s[1..] == [];
    }
  }

  lemma IntegerRead(n: int)
    ensures PyInt(DecInt(n)) == Some(n) && Crlf(DecInt(n)).None?
  {
    var d := if n < 0 then Dec(-n) else Dec(n);
    PyDigitsRead(d, 0);
    DigitsOfDec(if n < 0 then -n else n);
    hide Dec, PyDigits, Digits;
    var s := DecInt(n);
    assert !IsSpace(s[0]) && s[|s| - 1] == d[|d| - 1];
    assert n < 0 ==> s[1..] == d;
    NoCrNoCrlf(s);
  }

  lemma MinusOne()
    ensures DecInt(-1) == "-1"
  {
    assert Dec(1) == [Digit(1)];
  }

  /** Every well-formed reply, whatever follows it, is parsed back and leaves exactly what follows. */
  lemma {:induction false} ReplyBack(v: Reply, tail: Bytes)
    requires WellFormed(v)
    ensures EncodeReply(v) != [] && ParseValue(EncodeReply(v) + tail) == Got(v, tail)
    decreases v, 0
  {
    hide Crlf, SkipJunk, PyInt, Dec, DecInt;
    match v {
      case Simple(t) => HeadRead('+', t, tail);
      case Error(t) => HeadRead('-', t, tail);
      case Integer(n) =>
        IntegerRead(n);
        HeadRead(':', DecInt(n), tail);
      case Nil(ofArray) =>
        MinusOne();
        IntegerRead(-1);
        HeadRead(if ofArray then '*' else '$', DecInt(-1), tail);
      case BulkString(data) =>
        BulkBack(data, tail);
      case Array(items) =>
        IntegerRead(|items|);
        PlainDec(|items|);
        ItemsBack(v, 0, tail);
        var body := EncodeFrom(v, 0) + tail;
        assert EncodeReply(v) + tail == Line('*', Dec(|items|)) + body;
        HeadRead('*', Dec(|items|), body);
        assert items[0..] == items;
    }
  }

  lemma PlainDec(n: nat)
    ensures DecInt(n) == Dec(n)
  {
  }

  lemma {:induction false} BulkBack(data: Bytes, tail: Bytes)
    ensures ParseValue(EncodeReply(BulkString(data)) + tail) == Got(BulkString(data), tail)
  {
    IntegerRead(|data|);
    PlainDec(|data|);
    hide Crlf, SkipJunk, PyInt, Dec;
    var body := data + CRLF + tail;
    assert EncodeReply(BulkString(data)) + tail == Line('$', Dec(|data|)) + body;
    HeadRead('$', Dec(|data|), body);
    assert body[..|data|] == data && body[|data| + 2..] == tail;
  }

  lemma {:induction false} ItemsBack(v: Reply, k: nat, tail: Bytes)
    requires v.Array? && k <= |v.items| && WellFormed(v)
    ensures ParseMany(EncodeFrom(v, k) + tail, |v.items| - k) == Got(v.items[k..], tail)
    decreases v, 0, |v.items| - k
  {
    hide ParseValue, EncodeReply;
    if k == |v.items| {
      assert EncodeFrom(v, k) + tail == tail && v.items[k..] == [];
    } else {
      var rest := EncodeFrom(v, k + 1) + tail;
      ReplyBack(v.items[k], rest);
      assert EncodeFrom(v, k) + tail == EncodeReply(v.items[k]) + rest;
      ItemsBack(v, k + 1, tail);
      assert [v.items[k]] + v.items[k + 1..] == v.items[k..];
    }
  }

  /** Leftover bytes that start no reply are skipped. */
  lemma {:induction false} JunkSkipped(junk: Bytes, v: Reply, tail: Bytes)
    requires WellFormed(v) && forall i :: 0 <= i < |junk| ==> !IsType(junk[i])
    ensures ParseValue(junk + (EncodeReply(v) + tail)) == Got(v, tail)
  {
    hide ParseValue, SkipJunk, EncodeReply, WellFormed;
    ReplyBack(v, tail);
    SkipOverJunk(junk, EncodeReply(v) + tail);
    SameParse(junk + (EncodeReply(v) + tail), EncodeReply(v) + tail);
  }

  lemma SameParse(a: Bytes, b: Bytes)
    requires SkipJunk(a) == SkipJunk(b)
    ensures ParseValue(a) == ParseValue(b)
  {
    hide SkipJunk, Crlf, PyInt, ParseMany;
  }

  lemma {:induction false} SkipOverJunk(junk: Bytes, s: Bytes)
    requires forall i :: 0 <= i < |junk| ==> !IsType(junk[i])
    ensures SkipJunk(junk + s) == SkipJunk(s)
  {
    if junk == [] {
      assert junk + s == s;
    } else {
      assert (junk + s)[1..] == junk[1..] + s;
      SkipOverJunk(junk[1..], s);
    }
  }

  /** The reply the server encodes as a command array, as HGETALL does, is an array of bulk strings to the client. */
  lemma {:induction false} BulksAreReplies(args: seq<Bytes>, k: nat)
    requires k <= |args|
    ensures EncodeFrom(BulkArray(args), k) == Bulks(args[k..])
    decreases |args| - k
  {
    hide Dec;
    if k < |args| {
      BulksAreReplies(args, k + 1);
      assert args[k..][1..] == args[k + 1..];
      assert EncodeReply(BulkString(args[k])) == Bulk(args[k]);
    }
  }

  function BulkArray(args: seq<Bytes>): Reply { Array(seq(|args|, i requires 0 <= i < |args| => BulkString(args[i]))) }

  lemma EncodeIsReply(args: seq<Bytes>)
    ensures EncodeReply(BulkArray(args)) == Encode(args)
  {
    hide Dec, Bulks;
    BulksAreReplies(args, 0);
    assert args[0..] == args;
  }
}
