/** sdssplitargs: a command line cut into arguments, and the lines it cuts as intended. */
module SplitArgs {
  import opened Sds
  import opened Text

  predicate IsQuote(c: char) { c == '"' || c == '\'' }

  /** Where a run of characters ends: at NUL, at the end of the text, or at the first character outside it. */
  function BlankRun(s: Bytes): (n: nat)
    ensures n <= |s|
  {
    if s != [] && IsSpace(s[0]) then 1 + BlankRun(s[1..]) else 0
  }

  function WordRun(s: Bytes): (n: nat)
    ensures n <= |s|
  {
    if s != [] && s[0] != '\0' && !IsSpace(s[0]) then 1 + WordRun(s[1..]) else 0
  }

  function QuoteRun(s: Bytes, quote: char): (n: nat)
    ensures n <= |s|
  {
    if s != [] && s[0] != '\0' && s[0] != quote then 1 + QuoteRun(s[1..], quote) else 0
  }

  predicate AtEnd(s: Bytes) { s == [] || s[0] == '\0' }

  /** The argument at the head of a text and the bytes it takes; a missing closing quote is forgiven. */
  function Argument(s: Bytes): (r: (Bytes, nat))
    requires !AtEnd(s) && !IsSpace(s[0])
    ensures 0 < r.1 <= |s|
  {
    if IsQuote(s[0]) then
      var n := QuoteRun(s[1..], s[0]);
      (s[1..1 + n], if AtEnd(s[1 + n..]) then 1 + n else 2 + n)
    else
      (s[..WordRun(s)], WordRun(s))
  }

  lemma BlanksEnd(s: Bytes)
    ensures BlankRun(s) < |s| ==> !IsSpace(s[BlankRun(s)])
  {
  }

  function Split(s: Bytes): seq<Bytes>
    decreases |s|, 1
  {
    BlanksEnd(s);
    SplitHere(s[BlankRun(s)..])
  }

  /** The split of a text with no leading blank. */
  function SplitHere(s: Bytes): seq<Bytes>
    requires s == [] || !IsSpace(s[0])
    decreases |s|, 0
  {
    if AtEnd(s) then [] else [Argument(s).0] + Split(s[Argument(s).1..])
  }

  lemma {:induction false} SplitFrom(s: Bytes, n: nat)
    requires n == BlankRun(s)
    ensures (n == |s| || !IsSpace(s[n])) && Split(s) == SplitHere(s[n..])
  {
    hide SplitHere;
    BlanksEnd(s);
  }

  method SkipBlanks(line: Bytes, start: nat) returns (p: nat)
    requires start <= |line|
    ensures p == start + BlankRun(line[start..]) <= |line|
  {
    p := start;
    while p < |line| && IsSpace(line[p])
      invariant start <= p <= |line| && BlankRun(line[start..]) == p - start + BlankRun(line[p..])
    {
      p := p + 1;
    }
  }

  method ReadWord(line: Bytes, from: nat) returns (p: nat)
    requires from <= |line|
    ensures p == from + WordRun(line[from..])
  {
    p := from;
    while p < |line| && line[p] != '\0' && !IsSpace(line[p])
      invariant from <= p <= |line| && WordRun(line[from..]) == p - from + WordRun(line[p..])
    {
      p := p + 1;
    }
  }

  method ReadQuoted(line: Bytes, from: nat, quote: char) returns (p: nat)
    requires from <= |line|
    ensures p == from + QuoteRun(line[from..], quote)
  {
    p := from;
    while p < |line| && line[p] != '\0' && line[p] != quote
      invariant from <= p <= |line| && QuoteRun(line[from..], quote) == p - from + QuoteRun(line[p..], quote)
    {
      p := p + 1;
    }
  }

  method ReadArgument(line: Bytes, from: nat) returns (slot: Bytes, p: nat)
    requires from < |line| && !AtEnd(line[from..]) && !IsSpace(line[from])
    ensures (slot, p - from) == Argument(line[from..]) && from < p <= |line|
  {
    hide QuoteRun, WordRun;
    ghost var head := line[from..];
    if line[from] == '"' || line[from] == '\'' {
      var start := from + 1;
      assert head[1..] == line[start..];
      p := ReadQuoted(line, start, line[from]);
      assert head[p - from..] == line[p..];
      slot := line[start..p];
      assert head[1..p - from] == slot;
      if p < |line| && line[p] != '\0' { p := p + 1; }
    } else {
      p := ReadWord(line, from);
      slot := line[from..p];
      assert head[..p - from] == slot;
    }
  }

  method SdsSplitArgs(line: Bytes) returns (argv: seq<Bytes>)
    ensures argv == Split(line)
  {
    hide Split, BlankRun, Argument;
    argv := [];
    var p := 0;
    assert line[0..] == line;
    while true
      invariant 0 <= p <= |line| && Split(line) == argv + Split(line[p..])
      decreases |line| - p
    {
      var q := SkipBlanks(line, p);
      SplitFrom(line[p..], q - p);
      assert line[p..][q - p..] == line[q..];
      if q == |line| || line[q] == '\0' { break; }
      var slot, next := ReadArgument(line, q);
      assert line[q..][next - q..] == line[next..];
      argv := argv + [slot];
      p := next;
    }
  }

  // ----- printing and splitting -----

  /** A text that is one argument as it stands. */
  ghost predicate Plain(a: Bytes)
  {
    && a != [] && !IsQuote(a[0])
    && forall i :: 0 <= i < |a| ==> a[i] != '\0' && !IsSpace(a[i])
  }

  function Join(args: seq<Bytes>): Bytes
  {
    if args == [] then []
    else if |args| == 1 then args[0]
    else args[0] + " " + Join(args[1..])
  }

  lemma {:induction false} JoinSnoc(args: seq<Bytes>, a: Bytes)
    requires args != []
    ensures Join(args + [a]) == Join(args) + " " + a
  {
    if |args| == 1 {
      assert (args + [a])[1..] == [a];
    } else {
      assert (args + [a])[1..] == args[1..] + [a];
      JoinSnoc(args[1..], a);
    }
  }

  lemma {:induction false} WordStops(a: Bytes, rest: Bytes)
    requires forall i :: 0 <= i < |a| ==> a[i] != '\0' && !IsSpace(a[i])
    requires rest == [] || IsSpace(rest[0])
    ensures WordRun(a + rest) == |a|
  {
    if a == [] {
      assert a + rest == rest;
    } else {
      assert (a + rest)[1..] == a[1..] + rest;
      WordStops(a[1..], rest);
    }
  }

  /** Splitting undoes joining with single spaces, for plain arguments. */
  lemma {:induction false} SplitJoin(args: seq<Bytes>)
    requires forall i :: 0 <= i < |args| ==> Plain(args[i])
    ensures Split(Join(args)) == args
    ensures Split(" " + Join(args)) == args
  {
    hide Split, BlankRun, Argument;
    BlankFirst(Join(args));
    NoBlank(Join(args));
    SplitFrom(Join(args), 0);
    assert Join(args)[0..] == Join(args);
    if args != [] {
      var a := args[0];
      var rest := if |args| == 1 then "" else " " + Join(args[1..]);
      assert Join(args) == a + rest;
      OneWord(a, rest);
      SplitJoin(args[1..]);
      assert [a] + args[1..] == args;
    }
  }

  lemma NoBlank(s: Bytes)
    requires s == [] || !IsSpace(s[0])
    ensures BlankRun(s) == 0
  {
  }

  lemma BlankFirst(s: Bytes)
    requires s == [] || !IsSpace(s[0])
    ensures Split(" " + s) == Split(s)
  {
    hide Split, SplitHere;
    var t := " " + s;
    assert t[1..] == s && s[0..] == s;
    NoBlank(s);
    assert BlankRun(t) == 1;
    SplitFrom(t, 1);
    SplitFrom(s, 0);
  }

  lemma OneWord(a: Bytes, rest: Bytes)
    requires Plain(a) && (rest == [] || rest[0] == ' ')
    ensures BlankRun(a + rest) == 0 && !AtEnd(a + rest) && !IsSpace((a + rest)[0])
    ensures Argument(a + rest) == (a, |a|) && (a + rest)[|a|..] == rest
  {
    WordStops(a, rest);
    var s := a + rest;
    assert s[0] == a[0];
    assert s[..|a|] == a;
  }

  /** An argument that is not plain never survives the round trip on its own. */
  lemma OnlyPlainSurvives(a: Bytes)
    ensures Split(a) == [a] <==> Plain(a)
  {
    hide Split;
    var n := BlankRun(a);
    SplitFrom(a, n);
    if Plain(a) {
      SplitJoin([a]);
    } else if Split(a) == [a] {
      assert Argument(a[n..]).0 == SplitHere(a[n..])[0] == a;
      WordIsPlain(a);
    }
  }

  lemma {:induction false} WordIsPlain(s: Bytes)
    ensures forall i :: 0 <= i < WordRun(s) ==> s[i] != '\0' && !IsSpace(s[i])
  {
    if s != [] && s[0] != '\0' && !IsSpace(s[0]) {
      WordIsPlain(s[1..]);
    }
  }

  lemma {:induction false} QuoteStops(a: Bytes, quote: char, rest: Bytes)
    requires (forall i :: 0 <= i < |a| ==> a[i] != '\0' && a[i] != quote) && (rest == [] || rest[0] == quote)
    ensures QuoteRun(a + rest, quote) == |a|
  {
    if a == [] {
      assert a + rest == rest;
    } else {
      assert (a + rest)[1..] == a[1..] + rest;
      QuoteStops(a[1..], quote, rest);
    }
  }

  /** Quotes of either kind hold one argument together, blanks and all; a missing closing quote is forgiven at the end. */
  lemma QuotesProtect(a: Bytes, quote: char, rest: Bytes)
    requires IsQuote(quote) && forall i :: 0 <= i < |a| ==> a[i] != '\0' && a[i] != quote
    ensures Split([quote] + a + [quote] + rest) == [a] + Split(rest)
    ensures Split([quote] + a) == [a]
  {
    hide QuoteRun;
    var closed, open := [quote] + a + [quote] + rest, [quote] + a;
    assert closed[1..] == a + ([quote] + rest) && open[1..] == a + [];
    QuoteStops(a, quote, [quote] + rest);
    QuoteStops(a, quote, []);
    assert closed[1..1 + |a|] == a && closed[1 + |a|..] == [quote] + rest && closed[2 + |a|..] == rest;
    assert open[1..1 + |a|] == a && open[1 + |a|..] == [];
    assert Argument(closed) == (a, 2 + |a|) && Argument(open) == (a, 1 + |a|);
    assert Split("") == [];
    NoBlank(closed);
    NoBlank(open);
    hide Argument, Split, BlankRun;
    SplitFrom(closed, 0);
    SplitFrom(open, 0);
    assert closed[0..] == closed && open[0..] == open;
  }
}
