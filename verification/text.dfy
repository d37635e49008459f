/** Text building used by every reporting path: decimal rendering of
    integers (Python's `%d` and `str(int)`), Python's `%` operator on a
    string template, and `str.join`. */
module Text {

  datatype Option<+T> = None | Some(value: T)

  datatype Result<+T, +E> = Ok(value: T) | Err(error: E)

  predicate IsDigit(c: char) {
    '0' <= c <= '9'
  }

  predicate AllDigits(s: string) {
    forall i | 0 <= i < |s| :: IsDigit(s[i])
  }

  function DigitValue(c: char): (d: nat)
    requires IsDigit(c)
    ensures d < 10
  {
    c as int - '0' as int
  }

  function DigitChar(d: nat): (c: char)
    requires d < 10
    ensures IsDigit(c) && DigitValue(c) == d
  {
    ('0' as int + d) as char
  }

  /** The decimal text of `n`: digits only, at least one, and no leading
      zero unless `n` itself is zero. */
  function Decimal(n: nat): (s: string)
    ensures 1 <= |s| && AllDigits(s)
    ensures s[0] == '0' ==> n == 0
    decreases n
  {
    if n < 10 then [DigitChar(n)] else Decimal(n / 10) + [DigitChar(n % 10)]
  }

  /** The value of a string of digits, most significant first. */
  function DigitsValue(s: string): nat
    requires AllDigits(s)
  {
    if s == [] then 0 else 10 * DigitsValue(s[..|s| - 1]) + DigitValue(s[|s| - 1])
  }

  /** A numeral as `%d` and `str` write it: a non-empty run of digits with
      no leading zero, except for zero itself. */
  predicate Canonical(s: string) {
    |s| >= 1 && AllDigits(s) && (s[0] == '0' ==> |s| == 1)
  }

  /** Reads a decimal numeral back; anything that is not a canonical
      numeral is rejected. */
  function ParseDecimal(s: string): Option<nat> {
    if Canonical(s) then Some(DigitsValue(s)) else None
  }

  lemma {:induction false} DecimalRoundTrip(n: nat)
    ensures ParseDecimal(Decimal(n)) == Some(n)
  {
    var s := Decimal(n);
    if n < 10 {
      assert s[..|s| - 1] == [];
    } else {
      DecimalRoundTrip(n / 10);
      assert s[..|s| - 1] == Decimal(n / 10);
      assert DigitsValue(s) == 10 * (n / 10) + n % 10;
    }
  }

  /** The reader accepts exactly the texts Decimal writes: a numeral that
      reads back to n is the decimal text of n. */
  lemma {:induction false} ParseDecimalOnlyDecimal(s: string, n: nat)
    requires ParseDecimal(s) == Some(n)
    ensures s == Decimal(n)
  {
    var c := s[|s| - 1];
    assert DigitChar(DigitValue(c)) == c;
    if |s| > 1 {
      var p := s[..|s| - 1];
      assert p[0] == s[0] != '0';
      assert Canonical(p);
      var v := DigitsValue(p);
      ParseDecimalOnlyDecimal(p, v);
      assert v != 0;
      LastDigit(v, DigitValue(c));
      assert s == p + [c];
    }
  }

  lemma LastDigit(v: nat, d: nat)
    requires v >= 1 && d < 10
    ensures Decimal(10 * v + d) == Decimal(v) + [DigitChar(d)]
  {
    assert (10 * v + d) / 10 == v && (10 * v + d) % 10 == d;
  }

  /** Python's text of an integer: a minus sign for negative values. */
  function IntText(i: int): string {
    if i < 0 then "-" + Decimal(-i) else Decimal(i)
  }

  /** The values a `%` template is applied to: a string or an integral number. */
  datatype Arg = Str(s: string) | Int(i: int)

  /** The ways `template % args` can fail. MicroPython raises a TypeError
      for the argument-count and conversion errors and a ValueError for
      the other two; the messages are not modelled. */
  datatype FormatError =
    | NotEnoughArguments      // a directive finds no argument left
    | NotAllConverted         // arguments remain after the template ends
    | IncompleteFormat        // the template ends right after a `%`
    | NumberRequired          // `%d` applied to a string
    | UnsupportedConversion(c: char)

  function Prepend(p: string, r: Result<string, FormatError>): Result<string, FormatError> {
    match r
    case Ok(s) => Ok(p + s)
    case Err(e) => Err(e)
  }

  /** The text a single `%s` or `%d` conversion produces for `a`. */
  function Convert(conversion: char, a: Arg): Result<string, FormatError>
    requires conversion == 's' || conversion == 'd'
  {
    match a
    case Str(s) => if conversion == 's' then Ok(s) else Err(NumberRequired)
    case Int(i) => Ok(IntText(i))
  }

  /** `template % tuple(args)`, scanned left to right as MicroPython does:
      `%%` is a literal percent sign; any other directive first takes the
      next argument (failing when none is left) and only then looks at its
      conversion character, of which `%s` and `%d` are modelled; leftover
      arguments are an error. A template without `%` formats to itself
      when no argument is given, and is refused when one is. */
  function Format(template: string, args: seq<Arg>): (r: Result<string, FormatError>)
    ensures NoPercent(template) ==> r == if args == [] then Ok(template) else Err(NotAllConverted)
    decreases |template|
  {
    if template == [] then
      if args == [] then Ok("") else Err(NotAllConverted)
    else if template[0] != '%' then
      assert NoPercent(template) ==> NoPercent(template[1..]) by {
        if NoPercent(template) {
          forall i | 0 <= i < |template[1..]| ensures template[1..][i] != '%' {
            assert template[1..][i] == template[i + 1];
          }
        }
      }
      assert [template[0]] + template[1..] == template;
      Prepend([template[0]], Format(template[1..], args))
    else if |template| == 1 then
      Err(IncompleteFormat)
    else if template[1] == '%' then
      Prepend("%", Format(template[2..], args))
    else if args == [] then
      Err(NotEnoughArguments)
    else if template[1] == 's' || template[1] == 'd' then
      match Convert(template[1], args[0])
      case Err(e) => Err(e)
      case Ok(text) => Prepend(text, Format(template[2..], args[1..]))
    else
      Err(UnsupportedConversion(template[1]))
  }

  predicate NoPercent(s: string) {
    forall i | 0 <= i < |s| :: s[i] != '%'
  }

  lemma NoPercentConcat(a: string, b: string)
    requires NoPercent(a) && NoPercent(b)
    ensures NoPercent(a + b)
  {
    forall i | 0 <= i < |a + b| ensures (a + b)[i] != '%' {
      if i >= |a| {
        assert (a + b)[i] == b[i - |a|];
      }
    }
  }

  /** One ordinary character at the front is copied to the output. */
  lemma FormatPlain(c: char, rest: string, args: seq<Arg>)
    requires c != '%'
    ensures Format([c] + rest, args) == Prepend([c], Format(rest, args))
  {
    assert ([c] + rest)[1..] == rest;
  }

  lemma PrependTwice(a: string, b: string, r: Result<string, FormatError>)
    ensures Prepend(a, Prepend(b, r)) == Prepend(a + b, r)
  {
    if r.Ok? {
      assert a + (b + r.value) == (a + b) + r.value;
    }
  }

  /** Text without a percent sign passes through `%` formatting unchanged. */
  lemma {:induction false} FormatLiteral(lit: string, rest: string, args: seq<Arg>)
    requires NoPercent(lit)
    ensures Format(lit + rest, args) == Prepend(lit, Format(rest, args))
  {
    if lit == [] {
      assert lit + rest == rest;
      var r := Format(rest, args);
      if r.Ok? {
        assert lit + r.value == r.value;
      }
    } else {
      var c, tail := lit[0], lit[1..];
      assert lit == [c] + tail && lit + rest == [c] + (tail + rest);
      assert NoPercent(tail) by {
        forall i | 0 <= i < |tail| ensures tail[i] != '%' {
          assert tail[i] == lit[i + 1];
        }
      }
      FormatPlain(c, tail + rest, args);
      FormatLiteral(tail, rest, args);
      PrependTwice([c], tail, Format(rest, args));
    }
  }

  /** A `%s` or `%d` directive at the front consumes exactly one argument. */
  lemma FormatDirective(conversion: char, rest: string, a: Arg, args: seq<Arg>)
    requires conversion == 's' || conversion == 'd'
    requires Convert(conversion, a).Ok?
    ensures Format(['%', conversion] + rest, [a] + args)
         == Prepend(Convert(conversion, a).value, Format(rest, args))
  {
    var t := ['%', conversion] + rest;
    assert t[0] == '%' && t[1] == conversion && t[2..] == rest;
    assert ([a] + args)[0] == a && ([a] + args)[1..] == args;
  }

  /** A template with one `%s` between two literal parts. */
  lemma FormatOneString(pre: string, post: string, s: string)
    requires NoPercent(pre) && NoPercent(post)
    ensures Format(pre + "%s" + post, [Str(s)]) == Ok(pre + s + post)
  {
    var tail := ['%', 's'] + post;
    assert Format(tail, [Str(s)]) == Ok(s + post) by {
      assert [Str(s)] == [Str(s)] + [];
      FormatDirective('s', post, Str(s), []);
    }
    assert pre + "%s" + post == pre + tail;
    FormatLiteral(pre, tail, [Str(s)]);
    assert pre + (s + post) == pre + s + post;
  }

  /** A template with a `%s` and then a `%d`, separated by literal parts. */
  lemma FormatStringThenInt(pre: string, mid: string, post: string, s: string, i: int)
    requires NoPercent(pre) && NoPercent(mid) && NoPercent(post)
    ensures Format(pre + "%s" + mid + "%d" + post, [Str(s), Int(i)])
         == Ok(pre + s + mid + IntText(i) + post)
  {
    var last := ['%', 'd'] + post;
    assert Format(last, [Int(i)]) == Ok(IntText(i) + post) by {
      assert [Int(i)] == [Int(i)] + [];
      FormatDirective('d', post, Int(i), []);
    }
    assert Format(mid + last, [Int(i)]) == Ok(mid + (IntText(i) + post)) by {
      FormatLiteral(mid, last, [Int(i)]);
    }
    var tail := ['%', 's'] + (mid + last);
    assert Format(tail, [Str(s), Int(i)]) == Ok(s + (mid + (IntText(i) + post))) by {
      assert [Str(s), Int(i)] == [Str(s)] + [Int(i)];
      FormatDirective('s', mid + last, Str(s), [Int(i)]);
    }
    Nest5(pre, "%s", mid, "%d", post);
    assert "%s" == ['%', 's'] && "%d" == ['%', 'd'];
    FormatLiteral(pre, tail, [Str(s), Int(i)]);
    Nest5(pre, s, mid, IntText(i), post);
  }

  lemma Nest5(a: string, b: string, c: string, d: string, e: string)
    ensures a + b + c + d + e == a + (b + (c + (d + e)))
  {
  }

  function TotalLength(parts: seq<string>): nat {
    if parts == [] then 0 else |parts[0]| + TotalLength(parts[1..])
  }

  /** Python's `sep.join(parts)`: the parts in order with one separator
      between each neighbouring pair, so a single part is returned as it is. */
  function Join(sep: string, parts: seq<string>): (r: string)
    ensures |parts| == 1 ==> r == parts[0]
    ensures parts != [] ==> |r| == TotalLength(parts) + (|parts| - 1) * |sep|
    ensures parts != [] ==> r[..|parts[0]|] == parts[0]
  {
    if parts == [] then ""
    else if |parts| == 1 then parts[0]
    else parts[0] + sep + Join(sep, parts[1..])
  }

  /** Joining one more part appends a separator and that part. */
  lemma {:induction false} JoinAppend(sep: string, parts: seq<string>, p: string)
    requires parts != []
    ensures Join(sep, parts + [p]) == Join(sep, parts) + sep + p
  {
    if |parts| == 1 {
      assert (parts + [p])[1..] == [p];
    } else {
      assert (parts + [p])[1..] == parts[1..] + [p];
      JoinAppend(sep, parts[1..], p);
    }
  }

  /** The text strictly between a known head and a known tail, if `s`
      starts with the one and ends with the other. */
  function Between(s: string, head: string, tail: string): Option<string> {
    if |head| + |tail| <= |s| && s[..|head|] == head && s[|s| - |tail|..] == tail then
      Some(s[|head|..|s| - |tail|])
    else
      None
  }

  /** What Between finds is framed by the head and tail it was given. */
  lemma BetweenFrames(s: string, head: string, tail: string, middle: string)
    requires Between(s, head, tail) == Some(middle)
    ensures s == head + middle + tail
  {
    assert s == s[..|head|] + s[|head|..|s| - |tail|] + s[|s| - |tail|..];
  }

  lemma BetweenOf(head: string, middle: string, tail: string)
    ensures Between(head + middle + tail, head, tail) == Some(middle)
  {
    var s := head + middle + tail;
    assert s[..|head|] == head;
    assert s[|s| - |tail|..] == tail;
    assert s[|head|..|s| - |tail|] == middle;
  }
}
