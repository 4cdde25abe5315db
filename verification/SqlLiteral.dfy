/**
 * How the MySQL store writes strings into statements, against how MySQL reads them: the scanner
 * follows the section "String Literals" of the MySQL 8.0 Reference Manual, with backslash escapes
 * enabled (the default SQL mode).
 */
module SqlLiteral {
  import opened Seqs

  const QUOTE := '\''
  const BACKSLASH := '\\'

  // The printer.

  function EscapeChar(c: char): string { if c == QUOTE || c == BACKSLASH then [BACKSLASH, c] else [c] }

  function Escaped(value: string): string {
    if value == [] then [] else EscapeChar(value[0]) + Escaped(value[1..])
  }

  lemma {:induction false} EscapedSnoc(value: string, c: char)
    ensures Escaped(value + [c]) == Escaped(value) + EscapeChar(c)
  {
    if value == [] {
      assert [c][1..] == [] && value + [c] == [c];
    } else {
      EscapedSnoc(value[1..], c);
      assert (value + [c])[1..] == value[1..] + [c];
    }
  }

  method Escape(value: string) returns (escaped: string)
    ensures escaped == Escaped(value)
  {
    escaped := "";
    for i := 0 to |value|
      invariant escaped == Escaped(value[..i])
    {
      var c := value[i];
      if c == '\'' {
        escaped := escaped + "\\'";
      } else if c == '\\' {
        escaped := escaped + "\\\\";
      } else {
        escaped := escaped + [c];
      }
      EscapedSnoc(value[..i], c);
      assert value[..i + 1] == value[..i] + [c];
    }
    assert value[..|value|] == value;
  }

  function Quoted(value: string): string { [QUOTE] + Escaped(value) + [QUOTE] }

  function Joined(values: seq<string>): string
    requires values != []
  {
    if |values| == 1 then Quoted(values[0]) else Quoted(values[0]) + ", " + Joined(values[1..])
  }

  // The reader.

  /** What a backslash followed by `c` stands for. */
  function Unescape(c: char): string {
    match c
    case '0' => "\0"
    case 'b' => "\U{0008}"
    case 'n' => "\n"
    case 'r' => "\r"
    case 't' => "\t"
    case 'Z' => "\U{001A}"
    case '%' => "\\%"
    case '_' => "\\_"
    case _ => [c]
  }

  /** The value and the remaining text. */
  datatype Scan<+T> = Unterminated | Read(value: T, rest: string)

  function Prepend(s: string, r: Scan<string>): Scan<string> { if r.Read? then Read(s + r.value, r.rest) else r }

  /** From just after an opening quote: a doubled quote is a quote, a single one ends the literal. */
  function ScanBody(text: string): (r: Scan<string>)
    ensures r.Read? ==> |r.rest| < |text|
  {
    if text == [] then Unterminated
    else if text[0] == QUOTE then
      if |text| > 1 && text[1] == QUOTE then Prepend([QUOTE], ScanBody(text[2..])) else Read("", text[1..])
    else if text[0] == BACKSLASH then
      if |text| == 1 then Unterminated else Prepend(Unescape(text[1]), ScanBody(text[2..]))
    else Prepend([text[0]], ScanBody(text[1..]))
  }

  predicate IsBlank(c: char) { c == ' ' || c == '\t' || c == '\n' || c == '\r' }

  function SkipBlanks(text: string): (r: string)
    ensures |r| <= |text|
  {
    if text != [] && IsBlank(text[0]) then SkipBlanks(text[1..]) else text
  }

  predicate StartsLiteral(text: string) { text != [] && text[0] == QUOTE }

  /** One string literal; quoted strings placed next to each other are one string. */
  function ScanLiteral(text: string): (r: Scan<string>)
    ensures r.Read? ==> |r.rest| < |text|
    decreases |text|
  {
    if !StartsLiteral(text) then Unterminated else
      var first := ScanBody(text[1..]);
      if first.Read? && StartsLiteral(SkipBlanks(first.rest)) then
        Prepend(first.value, ScanLiteral(SkipBlanks(first.rest)))
      else first
  }

  const SEPARATOR := ", "

  predicate Continues(text: string) { |text| > 2 && text[..2] == SEPARATOR && text[2] == QUOTE }

  /** String literals separated by a comma and a blank, for as long as they go on. */
  function ScanList(text: string): Scan<seq<string>>
    decreases |text|
  {
    match ScanLiteral(text)
    case Unterminated => Unterminated
    case Read(v, rest) =>
      if !Continues(rest) then Read([v], rest) else
        match ScanList(rest[2..])
        case Unterminated => Unterminated
        case Read(vs, rest') => Read([v] + vs, rest')
  }

  // Round trips.

  lemma ScanOne(c: char, after: string)
    ensures ScanBody(EscapeChar(c) + after) == Prepend([c], ScanBody(after))
  {
    if c == QUOTE || c == BACKSLASH {
      assert ([BACKSLASH, c] + after)[2..] == after;
    } else {
      assert ([c] + after)[1..] == after;
    }
  }

  lemma PrependTwice(a: string, b: string, r: Scan<string>)
    ensures Prepend(a, Prepend(b, r)) == Prepend(a + b, r)
  {
    if r.Read? { assert a + (b + r.value) == a + b + r.value; }
  }

  /** Scanning an escaped value reads exactly that value and goes on with what follows it. */
  lemma {:induction false} ScanEscaped(value: string, tail: string)
    ensures ScanBody(Escaped(value) + tail) == Prepend(value, ScanBody(tail))
  {
    if value == [] {
      assert Escaped(value) + tail == tail;
      if ScanBody(tail).Read? { assert value + ScanBody(tail).value == ScanBody(tail).value; }
    } else {
      var c, rest := value[0], value[1..];
      assert value == [c] + rest;
      calc {
        ScanBody(Escaped(value) + tail);
        { assert Escaped(value) + tail == EscapeChar(c) + (Escaped(rest) + tail); }
        ScanBody(EscapeChar(c) + (Escaped(rest) + tail));
        { ScanOne(c, Escaped(rest) + tail); }
        Prepend([c], ScanBody(Escaped(rest) + tail));
        { ScanEscaped(rest, tail); }
        Prepend([c], Prepend(rest, ScanBody(tail)));
        { PrependTwice([c], rest, ScanBody(tail)); }
        Prepend(value, ScanBody(tail));
      }
    }
  }

  /** A quote ends the body unless another follows it. */
  lemma ScanClosing(rest: string)
    ensures ScanBody([QUOTE] + rest)
            == if StartsLiteral(rest) then Prepend([QUOTE], ScanBody(rest[1..])) else Read("", rest)
  {
    var tail := [QUOTE] + rest;
    assert tail[1..] == rest;
    if StartsLiteral(rest) { assert tail[2..] == rest[1..]; }
  }

  lemma ScanQuoted(value: string, rest: string)
    ensures (Quoted(value) + rest)[1..] == Escaped(value) + ([QUOTE] + rest)
    ensures ScanBody((Quoted(value) + rest)[1..])
            == if StartsLiteral(rest) then Prepend(value + [QUOTE], ScanBody(rest[1..])) else Read(value, rest)
  {
    assert (Quoted(value) + rest)[1..] == Escaped(value) + ([QUOTE] + rest);
    ScanEscaped(value, [QUOTE] + rest);
    ScanClosing(rest);
    if StartsLiteral(rest) {
      PrependTwice(value, [QUOTE], ScanBody(rest[1..]));
    } else {
      assert value + "" == value;
    }
  }

  /**
   * A quoted value followed by any statement text reads back as that value and leaves that text,
   * exactly when the text does not itself go on with a quote.
   */
  lemma QuotedRoundTrip(value: string, rest: string)
    ensures ScanLiteral(Quoted(value) + rest) == Read(value, rest) <==> !StartsLiteral(SkipBlanks(rest))
  {
    ScanQuoted(value, rest);
    if StartsLiteral(rest) { assert SkipBlanks(rest) == rest; }
  }

  lemma Regroup(a: string, b: string, c: string, d: string)
    ensures a + b + c + d == a + (b + (c + d))
  {
  }

  /** A quoted value and a separator in front of a list add that value to what the list reads as. */
  lemma ScanListCons(value: string, more: string, values: seq<string>, rest: string)
    requires StartsLiteral(more) && ScanList(more) == Read(values, rest)
    ensures ScanList(Quoted(value) + (SEPARATOR + more)) == Read([value] + values, rest)
  {
    var tail := SEPARATOR + more;
    assert SkipBlanks(tail) == tail;
    QuotedRoundTrip(value, tail);
    assert tail[2..] == more && tail[..2] == SEPARATOR;
  }

  /** Every nonempty list of strings, quoted, escaped and joined, reads back as that list. */
  lemma {:induction false} ListRoundTrip(values: seq<string>, rest: string)
    requires values != []
    requires !StartsLiteral(SkipBlanks(rest)) && !Continues(rest)
    ensures ScanList(Joined(values) + rest) == Read(values, rest)
    ensures StartsLiteral(Joined(values) + rest)
  {
    if |values| == 1 {
      QuotedRoundTrip(values[0], rest);
      assert values == [values[0]];
    } else {
      var more := Joined(values[1..]) + rest;
      ListRoundTrip(values[1..], rest);
      ScanListCons(values[0], more, values[1..], rest);
      Regroup(Quoted(values[0]), SEPARATOR, Joined(values[1..]), rest);
      assert [values[0]] + values[1..] == values;
    }
  }

  /** What `createConfig` sends after its three strings. */
  function AfterStrings(ts: string): string { ", 1, 'draft', '" + ts + "', '" + ts + "')" }

  /** The value list of the insert that `createConfig` sends, from its first quote on. */
  function InsertTail(ns: string, key: string, value: string, ts: string): string {
    "'" + Escaped(ns) + "', '" + Escaped(key) + "', '" + Escaped(value) + "'" + AfterStrings(ts)
  }

  lemma SameText(a: string, b: string, c: string, d: string)
    ensures "'" + a + "', '" + b + "', '" + c + "'" + d
            == ("'" + a + "'") + ", " + (("'" + b + "'") + ", " + ("'" + c + "'")) + d
  {
  }

  lemma InsertTailJoins(ns: string, key: string, value: string, ts: string)
    ensures InsertTail(ns, key, value, ts) == Joined([ns, key, value]) + AfterStrings(ts)
  {
    var values := [ns, key, value];
    assert values[1..] == [key, value] && values[1..][1..] == [value];
    assert Joined(values[1..][1..]) == Quoted(value);
    assert Joined(values[1..]) == Quoted(key) + ", " + Quoted(value);
    assert Joined(values) == Quoted(ns) + ", " + (Quoted(key) + ", " + Quoted(value));
    SameText(Escaped(ns), Escaped(key), Escaped(value), AfterStrings(ts));
  }

  /** Whatever the namespace, key and value contain, the server reads them unchanged, and a first draft after them. */
  lemma InsertReadsBack(ns: string, key: string, value: string, ts: string)
    ensures ScanList(InsertTail(ns, key, value, ts))
            == Read([ns, key, value], ", 1, 'draft', '" + ts + "', '" + ts + "')")
  {
    var rest := AfterStrings(ts);
    assert rest[0] == ',' && rest[2] == '1';
    InsertTailJoins(ns, key, value, ts);
    ListRoundTrip([ns, key, value], rest);
  }
}
