/**
  Descriptive enums (DescriptiveEnum.cpp): parsing the text of an enumerator list into a map from values to
  names, against the numbering rule of the language.
 */
module EnumMap {
  import opened Bytes

  // ------------------------------------------------------------------ text

  function Remove(s: string, c: char): string {
    if s == [] then [] else (if s[0] == c then [] else [s[0]]) + Remove(s[1..], c)
  }

  /** The four removals at the start of generateEnumMap. */
  function Clean(s: string): string {
    Remove(Remove(Remove(Remove(s, ' '), '('), ')'), '"')
  }

  /** The first place of c, or the length. */
  function Find(s: string, c: char): (i: nat)
    ensures i <= |s|
    ensures i < |s| <==> c in s
    ensures i < |s| ==> s[i] == c
    ensures forall j :: 0 <= j < i ==> s[j] != c
  {
    if s == [] || s[0] == c then 0
    else
      assert s == [s[0]] + s[1..];
      1 + Find(s[1..], c)
  }

  /** The pieces getline delivers: a separator at the very end opens no further piece. */
  function Split(s: string, separator: char): (tokens: seq<string>)
    decreases |s|
  {
    if s == [] then []
    else
      var i := Find(s, separator);
      [s[..i]] + (if i < |s| then Split(s[i + 1..], separator) else [])
  }

  method SplitString(input: string, separator: char) returns (returnStr: seq<string>)
    ensures returnStr == Split(input, separator)
    ensures AllFree(returnStr, separator) && Terminated(returnStr, separator) == Closed(input, separator)
  {
    SplitTerminates(input, separator);
    returnStr := [];
    var rest := input;
    while rest != []
      invariant Split(input, separator) == returnStr + Split(rest, separator)
      decreases |rest|
    {
      var i := Find(rest, separator);
      returnStr := returnStr + [rest[..i]];
      rest := if i < |rest| then rest[i + 1..] else [];
    }
  }

  // ------------------------------------------------------------------ std::stoll with base 0

  datatype EnumError = MissingValue | InvalidArgument | OutOfRange

  datatype Parsed<T> = Ok(value: T) | Err(error: EnumError)

  const LLONG_MIN: int := -0x8000_0000_0000_0000
  const LLONG_MAX: int := 0x7FFF_FFFF_FFFF_FFFF

  function DigitValue(c: char): nat {
    if '0' <= c <= '9' then c as int - '0' as int
    else if 'a' <= c <= 'z' then 10 + (c as int - 'a' as int)
    else if 'A' <= c <= 'Z' then 10 + (c as int - 'A' as int)
    else 99
  }

  predicate IsSpace(c: char) {
    c == ' ' || c == '\t' || c == '\n' || c == '\r' || c as int == 11 || c as int == 12
  }

  function SkipSpaces(s: string): string {
    if s != [] && IsSpace(s[0]) then SkipSpaces(s[1..]) else s
  }

  /** One more digit behind a number. */
  function Shift(acc: nat, base: nat, digit: nat): nat {
    acc * base + digit
  }

  /** The value of the digits at the start of s, behind digits of value acc. */
  function ReadDigits(s: string, base: nat, acc: nat): nat {
    if s == [] || DigitValue(s[0]) >= base then acc else ReadDigits(s[1..], base, Shift(acc, base, DigitValue(s[0])))
  }

  /** Prefixes 0x and 0 choose the base; what follows the digits is ignored. */
  function Magnitude(s: string): Option<nat> {
    if 2 < |s| && s[0] == '0' && (s[1] == 'x' || s[1] == 'X') && DigitValue(s[2]) < 16
        then Some(ReadDigits(s[2..], 16, 0))
    else if s != [] && s[0] == '0' then Some(ReadDigits(s, 8, 0))
    else if s != [] && DigitValue(s[0]) < 10 then Some(ReadDigits(s, 10, 0))
    else None
  }

  function StoLL(text: string): Parsed<int> {
    var s := SkipSpaces(text);
    var negative := s != [] && s[0] == '-';
    var digits := if s != [] && (s[0] == '-' || s[0] == '+') then s[1..] else s;
    match Magnitude(digits)
    case None => Err(InvalidArgument)
    case Some(m) =>
      var v: int := if negative then -(m as int) else m;
      if LLONG_MIN <= v <= LLONG_MAX then Ok(v) else Err(OutOfRange)
  }

  // ------------------------------------------------------------------ generateEnumMap

  /** The conversion of a value to size_t. */
  function Wrap(v: int): uint64 {
    v % 0x1_0000_0000_0000_0000
  }

  /** What one token makes of the map and the running value. */
  function Enter(item: string, m: map<uint64, string>, current: uint64): Parsed<(map<uint64, string>, uint64)> {
    if '=' !in item then Ok((m[current := item], Wrap(current + 1)))
    else
      var parts := Split(item, '=');
      if |parts| < 2 then Err(MissingValue)
      else
        match StoLL(parts[1])
        case Err(e) => Err(e)
        case Ok(v) => Ok((m[Wrap(v) := parts[0]], Wrap(Wrap(v) + 1)))
  }

  function EnterAll(items: seq<string>, m: map<uint64, string>, current: uint64): Parsed<map<uint64, string>> {
    if items == [] then Ok(m)
    else
      match Enter(items[0], m, current)
      case Err(e) => Err(e)
      case Ok((m', current')) => EnterAll(items[1..], m', current')
  }

  /** `MissingValue` is reading behind the pieces of a token like "A="; the others are exceptions. */
  method GenerateEnumMap(initializer: string) returns (returnMap: Parsed<map<uint64, string>>)
    ensures returnMap == EnterAll(Split(Clean(initializer), ','), map[], 0)
  {
    hide Split, Remove, StoLL;
    var initStr := initializer;
    initStr := Remove(initStr, ' ');
    initStr := Remove(initStr, '(');
    initStr := Remove(initStr, ')');
    initStr := Remove(initStr, '"');
    var m: map<uint64, string> := map[];
    var currentValue: uint64 := 0;
    var tokenStrings := SplitString(initStr, ',');
    for i := 0 to |tokenStrings|
      invariant EnterAll(tokenStrings, map[], 0) == EnterAll(tokenStrings[i..], m, currentValue)
    {
      var item := tokenStrings[i];
      assert tokenStrings[i..] == [item] + tokenStrings[i + 1..];
      if Find(item, '=') == |item| {
        m := m[currentValue := item];
        currentValue := (currentValue + 1) % 0x1_0000_0000_0000_0000;
      } else {
        var nameAndValue := SplitString(item, '=');
        if |nameAndValue| < 2 {
          return Err(MissingValue);
        }
        var value := StoLL(nameAndValue[1]);
        if value.Err? {
          return Err(value.error);
        }
        currentValue := value.value % 0x1_0000_0000_0000_0000;
        m := m[currentValue := nameAndValue[0]];
        currentValue := (currentValue + 1) % 0x1_0000_0000_0000_0000;
      }
    }
    return Ok(m);
  }

  // ------------------------------------------------------------------ enumerators and the numbering rule

  datatype Enumerator = Enumerator(name: string, value: Option<int>) {
    predicate Valid() {
      && name != []
      && (forall c :: c in name ==> c !in " ()\",=")
      && (value.Some? ==> LLONG_MIN <= value.value <= LLONG_MAX)
    }
  }

  ghost predicate AllValid(es: seq<Enumerator>) {
    forall i :: 0 <= i < |es| ==> es[i].Valid()
  }

  /** The value of the i-th enumerator: its own, or one more than its predecessor's, or 0. */
  function Value(es: seq<Enumerator>, i: nat): int
    requires i < |es|
  {
    if es[i].value.Some? then es[i].value.value
    else if i == 0 then 0
    else Value(es, i - 1) + 1
  }

  /** The same as a size_t, which is what the map has it under. */
  function Key(es: seq<Enumerator>, i: nat): uint64
    requires i < |es|
  {
    Wrap(Value(es, i))
  }

  /** m maps each value of the first n enumerators, as a size_t, to the last of them that has it, and nothing else. */
  ghost predicate Numbers(m: map<uint64, string>, es: seq<Enumerator>, n: nat)
    requires n <= |es|
  {
    && (forall k :: k in m ==> exists i :: 0 <= i < n && Key(es, i) == k)
    && (forall i :: 0 <= i < n ==>
          Key(es, i) in m
          && ((forall j :: i < j < n ==> Key(es, j) != Key(es, i))
              ==> m[Key(es, i)] == es[i].name))
  }

  function Dec(n: nat): (s: string)
    ensures s != []
  {
    if n < 10 then [Digit(n)] else Dec(n / 10) + [Digit(n % 10)]
  }

  function Digit(d: nat): (c: char)
    requires d < 10
    ensures '0' <= c <= '9' && DigitValue(c) == d
  {
    ('0' as int + d) as char
  }

  function Decimal(v: int): string {
    if v < 0 then "-" + Dec(-v) else Dec(v)
  }

  /** An enumerator as the stringised macro argument shows it. */
  function Print(e: Enumerator): string {
    match e.value
    case None => e.name
    case Some(v) => e.name + " = " + Decimal(v)
  }

  /** Items as the list shows them, possibly with a trailing comma. */
  function Join(items: seq<string>, trailing: bool): string {
    if items == [] then []
    else if |items| == 1 then items[0] + (if trailing then "," else "")
    else items[0] + ", " + Join(items[1..], trailing)
  }

  function Prints(es: seq<Enumerator>): (items: seq<string>)
    ensures |items| == |es|
    ensures forall i :: 0 <= i < |es| ==> items[i] == Print(es[i])
  {
    if es == [] then [] else [Print(es[0])] + Prints(es[1..])
  }

  /** A list of enumerators, possibly with a trailing comma. */
  function PrintAll(es: seq<Enumerator>, trailing: bool): string {
    Join(Prints(es), trailing)
  }

  // ------------------------------------------------------------------ from printed text to tokens

  lemma {:induction false} RemoveConcat(a: string, b: string, c: char)
    ensures Remove(a + b, c) == Remove(a, c) + Remove(b, c)
  {
    if a == [] {
      assert a + b == b;
    } else {
      assert (a + b)[1..] == a[1..] + b;
      RemoveConcat(a[1..], b, c);
    }
  }

  lemma {:induction false} RemoveNothing(s: string, c: char)
    requires c !in s
    ensures Remove(s, c) == s
  {
    if s != [] {
      RemoveNothing(s[1..], c);
    }
  }

  lemma CleanConcat(a: string, b: string)
    ensures Clean(a + b) == Clean(a) + Clean(b)
  {
    RemoveConcat(a, b, ' ');
    var a1, b1 := Remove(a, ' '), Remove(b, ' ');
    RemoveConcat(a1, b1, '(');
    var a2, b2 := Remove(a1, '('), Remove(b1, '(');
    RemoveConcat(a2, b2, ')');
    RemoveConcat(Remove(a2, ')'), Remove(b2, ')'), '"');
  }

  lemma CleanNothing(s: string)
    requires forall c :: c in s ==> c !in " ()\""
    ensures Clean(s) == s
  {
    RemoveNothing(s, ' ');
    RemoveNothing(s, '(');
    RemoveNothing(s, ')');
    RemoveNothing(s, '"');
  }

  lemma CleanSeparators()
    ensures Clean(", ") == "," && Clean(" = ") == "=" && Clean(",") == "," && Clean("") == ""
  {
    assert ", " == "," + " " && " = " == (" " + "=") + " ";
    CleanConcat(",", " ");
    CleanConcat(" " + "=", " ");
    CleanConcat(" ", "=");
    CleanNothing(",");
    CleanNothing("=");
    CleanSpace();
  }

  lemma CleanSpace()
    ensures Clean(" ") == ""
  {
    assert Remove(" ", ' ') == "";
  }

  lemma {:induction false} DecIsDigits(n: nat)
    ensures forall c :: c in Dec(n) ==> '0' <= c <= '9'
    ensures n > 0 ==> Dec(n)[0] != '0'
  {
    if n >= 10 {
      DecIsDigits(n / 10);
    }
  }

  /** A token of the cleaned text. */
  function Tight(e: Enumerator): string {
    match e.value
    case None => e.name
    case Some(v) => e.name + "=" + Decimal(v)
  }

  lemma DecimalClean(v: int)
    ensures forall c :: c in Decimal(v) ==> c == '-' || '0' <= c <= '9'
    ensures Clean(Decimal(v)) == Decimal(v)
  {
    DecIsDigits(if v < 0 then -v else v);
    CleanNothing(Decimal(v));
  }

  lemma PrintCleans(e: Enumerator)
    requires e.Valid()
    ensures Clean(Print(e)) == Tight(e)
    ensures ',' !in Tight(e) && Tight(e) != []
  {
    hide Clean, Decimal;
    CleanNothing(e.name);
    if e.value.Some? {
      var d := Decimal(e.value.value);
      DecimalClean(e.value.value);
      CleanSeparators();
      CleanConcat(e.name + " = ", d);
      CleanConcat(e.name, " = ");
    }
  }

  function Tokens(es: seq<Enumerator>): (tokens: seq<string>)
    ensures |tokens| == |es|
    ensures forall i :: 0 <= i < |es| ==> tokens[i] == Tight(es[i])
  {
    if es == [] then [] else [Tight(es[0])] + Tokens(es[1..])
  }

  lemma FindAfter(t: string, rest: string, c: char)
    requires c !in t
    ensures Find(t + [c] + rest, c) == |t|
  {
    var s := t + [c] + rest;
    assert s[|t|] == c;
    assert forall j :: 0 <= j < |t| ==> s[j] == t[j];
  }

  lemma SplitFirst(t: string, rest: string, c: char)
    requires c !in t
    ensures Split(t + [c] + rest, c) == [t] + Split(rest, c)
    ensures t != [] ==> Split(t, c) == [t]
  {
    FindAfter(t, rest, c);
    var s := t + [c] + rest;
    assert s[..|t|] == t && s[|t| + 1..] == rest;
    assert t[..|t|] == t;
  }

  /** Pieces, each followed by the separator. */
  function Terminated(pieces: seq<string>, separator: char): string {
    if pieces == [] then [] else pieces[0] + [separator] + Terminated(pieces[1..], separator)
  }

  /** The text with a separator at the end; an empty text has one already. */
  function Closed(s: string, separator: char): string {
    if s == [] || s[|s| - 1] == separator then s else s + [separator]
  }

  ghost predicate AllFree(pieces: seq<string>, c: char) {
    forall i :: 0 <= i < |pieces| ==> c !in pieces[i]
  }

  lemma OneMorePiece(t: string, pieces: seq<string>, c: char)
    requires c !in t && AllFree(pieces, c)
    ensures AllFree([t] + pieces, c) && Terminated([t] + pieces, c) == t + [c] + Terminated(pieces, c)
  {
    assert ([t] + pieces)[1..] == pieces;
  }

  lemma ClosedAfter(t: string, rest: string, c: char)
    ensures Closed(t + [c] + rest, c) == t + [c] + Closed(rest, c)
  {
    var s := t + [c] + rest;
    assert rest != [] ==> s[|s| - 1] == rest[|rest| - 1];
    assert s + [c] == t + [c] + (rest + [c]);
  }

  lemma {:induction false} SplitTerminates(s: string, c: char)
    ensures AllFree(Split(s, c), c) && Terminated(Split(s, c), c) == Closed(s, c)
    decreases |s|
  {
    hide Find, Terminated, AllFree;
    var i := Find(s, c);
    if s == [] {
      hide *;
      NoPieces(c);
    } else if i == |s| {
      assert s[..i] == s && Split(s, c) == [s] + [];
      NoPieces(c);
      OneMorePiece(s, [], c);
    } else {
      var t, rest := s[..i], s[i + 1..];
      assert s == t + [c] + rest;
      SplitTerminates(rest, c);
      OneMorePiece(t, Split(rest, c), c);
      ClosedAfter(t, rest, c);
    }
  }

  lemma NoPieces(c: char)
    ensures AllFree([], c) && Terminated([], c) == [] && Closed([], c) == [] && Split([], c) == []
  {
  }

  lemma {:induction false} TerminatedInjective(ps: seq<string>, qs: seq<string>, c: char)
    requires AllFree(ps, c) && AllFree(qs, c) && Terminated(ps, c) == Terminated(qs, c)
    ensures ps == qs
    decreases |ps|
  {
    if ps != [] && qs != [] {
      var s := Terminated(ps, c);
      FindAfter(ps[0], Terminated(ps[1..], c), c);
      FindAfter(qs[0], Terminated(qs[1..], c), c);
      assert ps[0] == s[..Find(s, c)] == qs[0];
      assert Terminated(ps[1..], c) == s[Find(s, c) + 1..] == Terminated(qs[1..], c);
      TerminatedInjective(ps[1..], qs[1..], c);
      assert ps == [ps[0]] + ps[1..] && qs == [qs[0]] + qs[1..];
    }
  }

  /**
    The pieces of a text are the one list without separators in its pieces that gives the text when each
    piece is followed by a separator, up to a separator at the end of the text.
   */
  lemma SplitExact(s: string, c: char, pieces: seq<string>)
    ensures pieces == Split(s, c) <==> AllFree(pieces, c) && Terminated(pieces, c) == Closed(s, c)
  {
    SplitTerminates(s, c);
    if AllFree(pieces, c) && Terminated(pieces, c) == Closed(s, c) {
      TerminatedInjective(pieces, Split(s, c), c);
    }
  }

  ghost predicate IsToken(t: string) {
    ',' !in t && t != []
  }

  lemma LastSplits(item: string, trailing: bool)
    requires IsToken(Clean(item))
    ensures Split(Clean(item + (if trailing then "," else "")), ',') == [Clean(item)]
  {
    hide Clean, Split;
    var t := Clean(item);
    CleanSeparators();
    CleanConcat(item, if trailing then "," else "");
    SplitFirst(t, [], ',');
    SplitEmpty(',');
    assert t + [','] + [] == t + "," && t + "" == t;
  }

  lemma SplitEmpty(c: char)
    ensures Split([], c) == []
  {
  }

  lemma FirstSplits(item: string, rest: string)
    requires IsToken(Clean(item))
    ensures Split(Clean(item + ", " + rest), ',') == [Clean(item)] + Split(Clean(rest), ',')
  {
    hide Clean, Split;
    CleanSeparators();
    CleanConcat(item + ", ", rest);
    CleanConcat(item, ", ");
    SplitFirst(Clean(item), Clean(rest), ',');
  }

  /** Cleaning and splitting a joined list gives back the cleaned items, with or without a trailing comma. */
  lemma {:induction false} JoinSplits(items: seq<string>, tokens: seq<string>, trailing: bool)
    requires |items| == |tokens|
    requires forall i :: 0 <= i < |items| ==> Clean(items[i]) == tokens[i] && IsToken(tokens[i])
    ensures Split(Clean(Join(items, trailing)), ',') == tokens
    decreases |items|
  {
    if items == [] {
      CleanSeparators();
    } else {
      hide Clean, Split;
      assert tokens == [tokens[0]] + tokens[1..];
      if |items| == 1 {
        LastSplits(items[0], trailing);
      } else {
        var rest := Join(items[1..], trailing);
        JoinSplits(items[1..], tokens[1..], trailing);
        FirstSplits(items[0], rest);
        assert Join(items, trailing) == items[0] + ", " + rest;
        hide Join, IsToken;
      }
    }
  }

  lemma PrintSplits(es: seq<Enumerator>, trailing: bool)
    requires AllValid(es)
    ensures Split(Clean(PrintAll(es, trailing)), ',') == Tokens(es)
  {
    hide Clean, Split, Print, Tight;
    forall i | 0 <= i < |es|
      ensures Clean(Prints(es)[i]) == Tokens(es)[i] && IsToken(Tokens(es)[i])
    {
      assert es[i].Valid();
      PrintCleans(es[i]);
    }
    JoinSplits(Prints(es), Tokens(es), trailing);
  }

  // ------------------------------------------------------------------ from tokens to values

  lemma {:induction false} ReadDigitsSnoc(s: string, c: char, base: nat, acc: nat)
    requires forall d :: d in s ==> DigitValue(d) < base
    requires DigitValue(c) < base
    ensures ReadDigits(s + [c], base, acc) == Shift(ReadDigits(s, base, acc), base, DigitValue(c))
    decreases |s|
  {
    hide Shift, DigitValue;
    if s == [] {
      assert s + [c] == [c];
      OneDigit(c, base, acc);
    } else {
      assert (s + [c])[1..] == s[1..] + [c];
      ReadDigitsSnoc(s[1..], c, base, Shift(acc, base, DigitValue(s[0])));
    }
  }

  lemma OneDigit(c: char, base: nat, acc: nat)
    requires DigitValue(c) < base
    ensures ReadDigits([c], base, acc) == Shift(acc, base, DigitValue(c))
  {
    hide Shift, DigitValue;
    assert [c][1..] == [];
  }

  lemma {:induction false} ReadDec(n: nat)
    ensures ReadDigits(Dec(n), 10, 0) == n
  {
    if n < 10 {
      assert Dec(n)[1..] == [];
    } else {
      DecIsDigits(n / 10);
      ReadDec(n / 10);
      ReadDigitsSnoc(Dec(n / 10), Digit(n % 10), 10, 0);
    }
  }

  /**
    Printed decimal numbers are read back if they have 64 bits, and are out of range otherwise; 0 is read as an
    octal number.
   */
  lemma DecimalRoundTrip(v: int)
    ensures StoLL(Decimal(v))
            == if -0x8000_0000_0000_0000 <= v <= 0x7FFF_FFFF_FFFF_FFFF then Ok(v) else Err(OutOfRange)
  {
    var n: nat := if v < 0 then -v else v;
    DecMagnitude(n);
    DecIsDigits(n);
    hide Dec, Magnitude;
    assert Dec(n)[0] in Dec(n);
    if v < 0 {
      assert ("-" + Dec(n))[1..] == Dec(n);
    }
  }

  lemma DecMagnitude(n: nat)
    ensures Magnitude(Dec(n)) == Some(n)
  {
    DecIsDigits(n);
    ReadDec(n);
    assert Dec(n)[0] in Dec(n);
    if n == 0 {
      OneDigit('0', 8, 0);
    }
  }

  // ------------------------------------------------------------------ other texts

  /** A digit of a base up to 16, as it is printed in lower or in upper case. */
  function DigitIn(d: nat, upper: bool): (c: char)
    requires d < 16
    ensures DigitValue(c) == d
  {
    if d < 10 then Digit(d) else ((if upper then 'A' else 'a') as int + d - 10) as char
  }

  /** Hexadecimal and octal numbers without leading zeros. */
  function Hex(n: nat, upper: bool): (s: string)
    ensures s != [] && forall c :: c in s ==> DigitValue(c) < 16
  {
    if n < 16 then [DigitIn(n, upper)] else Hex(n / 16, upper) + [DigitIn(n % 16, upper)]
  }

  function Oct(n: nat): (s: string)
    ensures s != [] && forall c :: c in s ==> DigitValue(c) < 8
  {
    if n < 8 then [Digit(n)] else Oct(n / 8) + [Digit(n % 8)]
  }

  lemma {:induction false} ReadHex(n: nat, upper: bool)
    ensures ReadDigits(Hex(n, upper), 16, 0) == n
  {
    if n < 16 {
      OneDigit(DigitIn(n, upper), 16, 0);
    } else {
      ReadHex(n / 16, upper);
      ReadDigitsSnoc(Hex(n / 16, upper), DigitIn(n % 16, upper), 16, 0);
    }
  }

  lemma {:induction false} ReadOct(n: nat)
    ensures ReadDigits(Oct(n), 8, 0) == n
  {
    if n < 8 {
      OneDigit(Digit(n), 8, 0);
    } else {
      ReadOct(n / 8);
      ReadDigitsSnoc(Oct(n / 8), Digit(n % 8), 8, 0);
    }
  }

  /** Numbers with the prefix 0x or 0X are read as hexadecimal ones, those with a leading 0 as octal ones. */
  lemma PrefixedRoundTrip(n: nat, upper: bool)
    requires n <= 0x7FFF_FFFF_FFFF_FFFF
    ensures StoLL((if upper then "0X" else "0x") + Hex(n, upper)) == Ok(n)
    ensures StoLL("0" + Oct(n)) == Ok(n)
  {
    hide Hex, Oct, Magnitude;
    var h, o := Hex(n, upper), Oct(n);
    ReadHex(n, upper);
    ReadOct(n);
    HexMagnitude(h, upper);
    OctalMagnitude(o);
    var x := (if upper then "0X" else "0x") + h;
    assert x[0] == '0' && ("0" + o)[0] == '0';
  }

  lemma HexMagnitude(h: string, upper: bool)
    requires h != [] && forall c :: c in h ==> DigitValue(c) < 16
    ensures Magnitude((if upper then "0X" else "0x") + h) == Some(ReadDigits(h, 16, 0))
  {
    var x := (if upper then "0X" else "0x") + h;
    assert x[2..] == h && h[0] in h && x[2] == h[0];
  }

  lemma OctalMagnitude(o: string)
    requires o != [] && forall c :: c in o ==> DigitValue(c) < 8
    ensures Magnitude("0" + o) == Some(ReadDigits(o, 8, 0))
  {
    var x := "0" + o;
    assert x[1..] == o && o[0] in o && x[1] == o[0];
    assert DigitValue('x') == 33 && DigitValue('X') == 33;
    assert ReadDigits(x, 8, 0) == ReadDigits(o, 8, 0);
  }

  /** The characters that are no space, parenthesis or quotation mark, in order. */
  function Without(s: string): string {
    if s == [] then []
    else if s[0] == ' ' || s[0] == '(' || s[0] == ')' || s[0] == '"' then Without(s[1..])
    else [s[0]] + Without(s[1..])
  }

  lemma CleanOne(c: char)
    ensures Clean([c]) == if c == ' ' || c == '(' || c == ')' || c == '"' then [] else [c]
  {
    RemoveOne(c, ' ');
    RemoveOne(c, '(');
    RemoveOne(c, ')');
    RemoveOne(c, '"');
    RemoveNone('(');
    RemoveNone(')');
    RemoveNone('"');
  }

  lemma RemoveOne(c: char, d: char)
    ensures Remove([c], d) == if c == d then [] else [c]
  {
    assert [c][1..] == [];
  }

  lemma RemoveNone(d: char)
    ensures Remove([], d) == []
  {
  }

  /** The four removals are one pass. */
  lemma {:induction false} CleanExact(s: string)
    ensures Clean(s) == Without(s)
    decreases |s|
  {
    hide Clean;
    if s == [] {
      CleanEmpty();
    } else {
      CleanExact(s[1..]);
      CleanConcat([s[0]], s[1..]);
      CleanOne(s[0]);
      assert s == [s[0]] + s[1..];
    }
  }

  lemma CleanEmpty()
    ensures Clean("") == ""
  {
  }

  /**
    Texts that are no enumerators: nothing behind the equals sign is read behind its pieces, and what is no
    number there, or one of more than 64 bits, is an exception.
   */
  lemma MalformedEnters(name: string, text: string, m: map<uint64, string>, current: uint64)
    requires '=' !in name && '=' !in text && text != []
    ensures Enter(name + "=", m, current) == Err(MissingValue)
    ensures Enter(name + "=" + text, m, current)
            == match StoLL(text)
               case Err(e) => Err(e)
               case Ok(v) => Ok((m[Wrap(v) := name], Wrap(Wrap(v) + 1)))
  {
    hide Split, StoLL;
    SplitFirst(name, [], '=');
    SplitFirst(name, text, '=');
    SplitFirst(text, [], '=');
    SplitEmpty('=');
    assert name + ['='] + [] == name + "=";
    assert name + ['='] + text == name + "=" + text;
    assert (name + "=")[|name|] == '=' && (name + "=" + text)[|name|] == '=';
  }

  lemma PlusRead(n: nat)
    requires n <= 0x7FFF_FFFF_FFFF_FFFF
    ensures StoLL("+" + Dec(n)) == Ok(n)
  {
    DecMagnitude(n);
    hide Dec, Magnitude;
    assert ("+" + Dec(n))[1..] == Dec(n);
  }

  /** A text that starts neither with a space nor with a sign is a number exactly when it starts with a digit. */
  lemma NoNumber(text: string)
    requires text != [] && !IsSpace(text[0]) && text[0] != '-' && text[0] != '+'
    ensures StoLL(text) == Err(InvalidArgument) <==> !('0' <= text[0] <= '9')
  {
  }

  lemma DecimalNotEmpty(v: int)
    ensures Decimal(v) != [] && '=' !in Decimal(v)
  {
    DecIsDigits(if v < 0 then -v else v);
  }

  lemma WrapNext(v: int)
    ensures Wrap(Wrap(v) + 1) == Wrap(v + 1)
  {
  }

  /** One token enters its enumerator at its value. */
  lemma EnterOne(e: Enumerator, m: map<uint64, string>, current: uint64)
    requires e.Valid()
    ensures e.value.None? ==> Enter(Tight(e), m, current) == Ok((m[current := e.name], Wrap(current + 1)))
    ensures e.value.Some? ==>
              Enter(Tight(e), m, current) == Ok((m[Wrap(e.value.value) := e.name], Wrap(e.value.value + 1)))
  {
    hide Split, StoLL, Decimal;
    if e.value.Some? {
      var v := e.value.value;
      var d := Decimal(v);
      DecimalClean(v);
      DecimalRoundTrip(v);
      WrapNext(v);
      DecimalNotEmpty(v);
      assert e.name + ['='] + d == e.name + "=" + d;
      SplitFirst(e.name, d, '=');
      SplitFirst(d, [], '=');
      assert Tight(e)[|e.name|] == '=';
    }
  }

  lemma NumbersStep(m: map<uint64, string>, es: seq<Enumerator>, n: nat)
    requires n < |es| && Numbers(m, es, n)
    ensures Numbers(m[Key(es, n) := es[n].name], es, n + 1)
  {
    hide Key;
    var v := Key(es, n);
    var m' := m[v := es[n].name];
    forall k | k in m'
      ensures exists i :: 0 <= i < n + 1 && Key(es, i) == k
    {
      if k == v {
        assert Key(es, n) == k;
      } else {
        var i :| 0 <= i < n && Key(es, i) == k;
      }
    }
    forall i | 0 <= i < n + 1
      ensures Key(es, i) in m'
      ensures (forall j :: i < j < n + 1 ==> Key(es, j) != Key(es, i)) ==>
                m'[Key(es, i)] == es[i].name
    {
      if i < n && Key(es, i) != v {
        assert Key(es, i) in m;
        assert m'[Key(es, i)] == m[Key(es, i)];
      }
    }
  }

  /** The running value before the n-th token. */
  function Next(es: seq<Enumerator>, n: nat): uint64
    requires n <= |es|
  {
    if n == 0 then 0 else Wrap(Value(es, n - 1) + 1)
  }

  lemma EnterNth(es: seq<Enumerator>, n: nat, m: map<uint64, string>)
    requires AllValid(es) && n < |es|
    ensures Enter(Tight(es[n]), m, Next(es, n)) == Ok((m[Wrap(Value(es, n)) := es[n].name], Next(es, n + 1)))
  {
    hide Enter, Tight;
    EnterOne(es[n], m, Next(es, n));
    if n > 0 {
      WrapNext(Value(es, n - 1) + 1);
    }
  }

  lemma {:induction false} EntersNumbers(es: seq<Enumerator>, n: nat, m: map<uint64, string>)
    requires AllValid(es) && n <= |es|
    requires Numbers(m, es, n)
    ensures EnterAll(Tokens(es)[n..], m, Next(es, n)).Ok?
    ensures Numbers(EnterAll(Tokens(es)[n..], m, Next(es, n)).value, es, |es|)
    decreases |es| - n
  {
    if n < |es| {
      hide Enter, Numbers, Wrap, Value, Next, Tight, Tokens;
      var items := Tokens(es)[n..];
      assert items[0] == Tight(es[n]) && items[1..] == Tokens(es)[n + 1..];
      EnterNth(es, n, m);
      NumbersStep(m, es, n);
      EntersNumbers(es, n + 1, m[Wrap(Value(es, n)) := es[n].name]);
    }
  }

  /**
    generateEnumMap inverts enumerator printing: the map it makes from a printed list of enumerators is the
    one that the numbering rule of the language determines.
   */
  lemma EnumMapFollowsNumbering(es: seq<Enumerator>, trailing: bool)
    requires AllValid(es)
    ensures var r := EnterAll(Split(Clean(PrintAll(es, trailing)), ','), map[], 0);
            r.Ok? && Numbers(r.value, es, |es|)
  {
    PrintSplits(es, trailing);
    assert Tokens(es)[0..] == Tokens(es);
    EntersNumbers(es, 0, map[]);
  }

  /**
    The numbering rule: an initialiser counts for itself, the first enumerator is 0, any other one more than
    the one before.
   */
  lemma NumberingRule(es: seq<Enumerator>, i: nat)
    requires i < |es|
    ensures es[i].value.Some? ==> Value(es, i) == es[i].value.value
    ensures es[i].value.None? ==> Value(es, i) == if i == 0 then 0 else Value(es, i - 1) + 1
  {
  }

  /** The keys are the values modulo 2^64, no more and no less. */
  lemma KeysModulo(es: seq<Enumerator>, trailing: bool, key: int)
    requires AllValid(es)
    ensures var r := EnterAll(Split(Clean(PrintAll(es, trailing)), ','), map[], 0);
            r.Ok? && (key in r.value
                      <==> exists i :: 0 <= i < |es| && Value(es, i) % 0x1_0000_0000_0000_0000 == key)
  {
    hide Split, Clean, PrintAll, EnterAll;
    EnumMapFollowsNumbering(es, trailing);
    var m := EnterAll(Split(Clean(PrintAll(es, trailing)), ','), map[], 0).value;
    if key in m {
      var i :| 0 <= i < |es| && Key(es, i) == key;
      assert Value(es, i) % 0x1_0000_0000_0000_0000 == key;
    }
    if i :| 0 <= i < |es| && Value(es, i) % 0x1_0000_0000_0000_0000 == key {
      assert Key(es, i) == key;
    }
  }

  /** Such a map is unique. */
  lemma NumbersUnique(m: map<uint64, string>, m': map<uint64, string>, es: seq<Enumerator>)
    requires Numbers(m, es, |es|) && Numbers(m', es, |es|)
    ensures m == m'
  {
    forall k | k in m
      ensures k in m' && m[k] == m'[k]
    {
      var i := LastWith(es, k, |es|);
    }
  }

  /** The last of the first n enumerators whose value is k. */
  lemma {:induction false} LastWith(es: seq<Enumerator>, k: uint64, n: nat) returns (i: nat)
    requires n <= |es| && exists j :: 0 <= j < n && Key(es, j) == k
    ensures i < n && Key(es, i) == k
    ensures forall j :: i < j < n ==> Key(es, j) != k
  {
    if Key(es, n - 1) == k {
      i := n - 1;
    } else {
      i := LastWith(es, k, n - 1);
    }
  }

  // ------------------------------------------------------------------ shift initialisers

  /** A flag as Context::Permissions declares it. */
  function PrintFlag(name: string, k: nat): string {
    name + (" = (1u << " + (Dec(k) + ")"))
  }

  function PrintFlags(names: seq<string>, k: nat): (items: seq<string>)
    ensures |items| == |names|
    ensures forall i :: 0 <= i < |names| ==> items[i] == PrintFlag(names[i], k + i)
  {
    if names == [] then [] else [PrintFlag(names[0], k)] + PrintFlags(names[1..], k + 1)
  }

  function TightFlag(name: string, k: nat): string {
    name + "=" + ("1u<<" + Dec(k))
  }

  lemma FlagCleans(name: string, k: nat)
    requires forall c :: c in name ==> c !in " ()\",="
    ensures Clean(PrintFlag(name, k)) == TightFlag(name, k)
    ensures IsToken(TightFlag(name, k))
  {
    hide Clean, Dec;
    var d := Dec(k);
    DecIsDigits(k);
    CleanNothing(name);
    CleanNothing(d);
    CleanShift();
    CleanParentheses();
    CleanConcat(name, " = (1u << " + (d + ")"));
    CleanConcat(" = (1u << ", d + ")");
    CleanConcat(d, ")");
    assert d + "" == d;
    AssocText("=", "1u<<", d);
    AssocText(name, "=", "1u<<" + d);
    FlagToken(name, "1u<<" + d);
  }

  lemma FlagToken(name: string, text: string)
    requires ',' !in name && ',' !in text
    ensures IsToken(name + "=" + text)
  {
    assert (name + "=" + text)[|name|] == '=';
  }

  lemma AssocText(a: string, b: string, c: string)
    ensures a + b + c == a + (b + c)
  {
  }

  lemma CleanShift()
    ensures Clean(" = (1u << ") == "=" + "1u<<"
  {
    hide Clean;
    var shift := "<<" + " ";
    CleanSeparators();
    CleanParentheses();
    CleanSpace();
    CleanNothing("1u");
    CleanNothing("<<");
    CleanConcat("<<", " ");
    CleanConcat(" ", shift);
    CleanConcat("1u", " " + shift);
    CleanConcat("(", "1u" + (" " + shift));
    CleanConcat(" = ", "(" + ("1u" + (" " + shift)));
    assert " = (1u << " == " = " + ("(" + ("1u" + (" " + shift)));
  }

  lemma CleanParentheses()
    ensures Clean("(") == "" && Clean(")") == ""
  {
    assert Remove("(", ' ') == "(" && Remove("(", '(') == "";
    assert Remove(")", ' ') == ")" && Remove(")", '(') == ")" && Remove(")", ')') == "";
  }

  /** Only the 1 in front of the shift is read. */
  lemma ShiftReadsOne(digits: string)
    ensures StoLL("1u<<" + digits) == Ok(1)
  {
    var s := "1u<<" + digits;
    assert s[0] == '1' && s[1] == 'u' && s[1..][0] == 'u';
    assert ReadDigits(s[1..], 10, 1) == 1;
    assert ReadDigits(s, 10, 0) == 1;
  }

  lemma FlagEnters(name: string, k: nat, m: map<uint64, string>, current: uint64)
    requires name != [] && forall c :: c in name ==> c !in " ()\",="
    ensures Enter(TightFlag(name, k), m, current) == Ok((m[1 := name], 2))
  {
    hide Split, StoLL, Dec;
    var text := "1u<<" + Dec(k);
    DecIsDigits(k);
    ShiftReadsOne(Dec(k));
    assert name + ['='] + text == TightFlag(name, k);
    assert '=' !in text;
    SplitFirst(name, text, '=');
    SplitFirst(text, [], '=');
    assert TightFlag(name, k)[|name|] == '=';
  }

  lemma {:induction false} FlagTokensCollapse(names: seq<string>, k: nat, tokens: seq<string>, m: map<uint64, string>,
                                              current: uint64)
    requires |tokens| == |names| && names != []
    requires forall i :: 0 <= i < |names| ==> names[i] != [] && (forall c :: c in names[i] ==> c !in " ()\",=")
    requires forall i :: 0 <= i < |names| ==> tokens[i] == TightFlag(names[i], k + i)
    ensures EnterAll(tokens, m, current) == Ok(m[1 := names[|names| - 1]])
    decreases |names|
  {
    hide Enter, TightFlag;
    FlagEnters(names[0], k, m, current);
    assert tokens[0] == TightFlag(names[0], k + 0);
    if |names| == 1 {
      assert EnterAll(tokens[1..], m[1 := names[0]], 2) == Ok(m[1 := names[0]]);
    } else {
      forall i | 0 <= i < |names| - 1
        ensures tokens[1..][i] == TightFlag(names[1..][i], k + 1 + i)
      {
        assert tokens[i + 1] == TightFlag(names[i + 1], k + (i + 1));
      }
      FlagTokensCollapse(names[1..], k + 1, tokens[1..], m[1 := names[0]], 2);
      assert m[1 := names[0]][1 := names[|names| - 1]] == m[1 := names[|names| - 1]];
    }
  }

  /**
    Where the numbering rule is missed: initialisers that are shifts, as the permission bits have, are all
    read as 1, so a non-empty list of them gives a map with the last name only.
   */
  lemma FlagsCollapse(names: seq<string>, trailing: bool)
    requires names != []
    requires forall i :: 0 <= i < |names| ==> names[i] != [] && (forall c :: c in names[i] ==> c !in " ()\",=")
    ensures EnterAll(Split(Clean(Join(PrintFlags(names, 0), trailing)), ','), map[], 0)
         == Ok(map[1 := names[|names| - 1]])
  {
    hide Clean, Split, Enter, TightFlag, PrintFlag;
    var items := PrintFlags(names, 0);
    var tokens := seq(|names|, i requires 0 <= i < |names| => TightFlag(names[i], 0 + i));
    forall i | 0 <= i < |names|
      ensures Clean(items[i]) == tokens[i] && IsToken(tokens[i])
    {
      FlagCleans(names[i], 0 + i);
    }
    JoinSplits(items, tokens, trailing);
    FlagTokensCollapse(names, 0, tokens, map[], 0);
  }

  function Power2(k: nat): nat {
    if k == 0 then 1 else 2 * Power2(k - 1)
  }

  /** The same flags with the values the language gives them. */
  function Flags(names: seq<string>): (es: seq<Enumerator>)
    ensures |es| == |names|
  {
    seq(|names|, i requires 0 <= i < |names| => Enumerator(names[i], Some(Power2(i))))
  }

  /** So a list of flags is numbered as the language does exactly when it has one flag. */
  lemma FlagsNumbered(names: seq<string>)
    requires names != []
    ensures Numbers(map[1 := names[|names| - 1]], Flags(names), |names|) <==> |names| == 1
  {
    var m, es := map[1 := names[|names| - 1]], Flags(names);
    assert Value(es, 0) == 1 && Key(es, 0) == 1;
    if |names| > 1 {
      assert Power2(1) == 2;
      assert Value(es, 1) == 2;
      assert Key(es, 1) !in m;
    }
  }
}
