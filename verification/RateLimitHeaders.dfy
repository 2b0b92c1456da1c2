/** The three rate limit headers of a response, read as `src/rate_limiter.cpp` reads them, with
    `std::stoul` and `std::stol`. */
module RateLimitHeaders {
  import opened Bytes

  /** Ticks of the system clock in a second. */
  const SECOND: nat := 1_000_000_000

  datatype Limit = Limit(limit: nat, remaining: nat, reset: int)

  /** `X-RateLimit-Limit`, `X-RateLimit-Remaining`, `X-RateLimit-Reset` */
  datatype Headers = Headers(limit: Option<string>, remaining: Option<string>, reset: Option<string>)

  predicate IsDigit(c: char) { '0' <= c <= '9' }

  /** `isspace` */
  predicate IsSpace(c: char) { c == ' ' || '\t' <= c <= '\r' }

  function SkipSpace(s: string): string {
    if s != "" && IsSpace(s[0]) then SkipSpace(s[1..]) else s
  }

  /** The number written by the digits at the front of `s`, behind digits that mean `value`. */
  function Digits(s: string, value: nat): nat {
    if s == "" || !IsDigit(s[0]) then value else Digits(s[1..], 10 * value + (s[0] - '0') as nat)
  }

  /** The decimal number at the front of a string; what follows it is ignored. */
  function Number(s: string): Option<int> {
    var t := SkipSpace(s);
    var u := if t != "" && (t[0] == '+' || t[0] == '-') then t[1..] else t;
    if u == "" || !IsDigit(u[0]) then None
    else
      var value: int := Digits(u, 0);
      Some(if t[0] == '-' then -value else value)
  }

  /** `std::stoul`; `None` is an exception.  A negative number wraps. */
  function Stoul(s: string): Option<nat> {
    match Number(s)
    case None => None
    case Some(v) => if -v < TWO_64 && v < TWO_64 then Some(v % TWO_64) else None
  }

  /** `std::stol` */
  function Stol(s: string): Option<int> {
    match Number(s)
    case None => None
    case Some(v) => if -v <= TWO_64 / 2 && v < TWO_64 / 2 then Some(v) else None
  }

  datatype Reading = Absent | Throws | Found(limit: Limit)

  /** What the reply handler makes of the headers.  Two of the numbers are cut to 16 bits. */
  function Read(h: Headers): Reading {
    if h.limit.None? || h.remaining.None? || h.reset.None? then Absent
    else
      var (limit, remaining, reset) := (Stoul(h.limit.value), Stoul(h.remaining.value), Stol(h.reset.value));
      if limit.None? || remaining.None? || reset.None? then Throws
      else Found(Limit(limit.value % 0x1_0000, remaining.value % 0x1_0000, reset.value * SECOND))
  }

  // ---------------------------------------------------------------------------------------
  // What is read of decimal numbers
  // ---------------------------------------------------------------------------------------

  /** A number in decimal notation. */
  function Decimal(n: nat): string {
    (if n < 10 then "" else Decimal(n / 10)) + [['0', '1', '2', '3', '4', '5', '6', '7', '8', '9'][n % 10]]
  }

  lemma DigitsOfOne(d: nat, rest: string, value: nat)
    requires d < 10
    ensures var c := ['0', '1', '2', '3', '4', '5', '6', '7', '8', '9'][d];
            IsDigit(c) && Digits([c] + rest, value) == Digits(rest, 10 * value + d)
  {
    var c := ['0', '1', '2', '3', '4', '5', '6', '7', '8', '9'][d];
    assert ([c] + rest)[1..] == rest;
  }

  lemma {:induction false} DigitsOfDecimal(n: nat, rest: string)
    ensures Digits(Decimal(n) + rest, 0) == Digits(rest, n)
    ensures Decimal(n) != "" && IsDigit(Decimal(n)[0])
  {
    hide Digits;
    var c := ['0', '1', '2', '3', '4', '5', '6', '7', '8', '9'][n % 10];
    if n < 10 {
      DigitsOfOne(n, rest, 0);
      assert Decimal(n) == [c];
    } else {
      DigitsOfDecimal(n / 10, [c] + rest);
      DigitsOfOne(n % 10, rest, n / 10);
      assert Decimal(n) + rest == Decimal(n / 10) + ([c] + rest);
    }
  }

  /** A decimal number, signed or not, is read as written, whatever follows its last digit. */
  lemma NumberOfDecimal(n: nat, rest: string)
    requires rest != "" ==> !IsDigit(rest[0])
    ensures Number(Decimal(n) + rest) == Some(n)
    ensures Number("-" + (Decimal(n) + rest)) == Some(-(n as int))
  {
    hide Decimal;
    var text := Decimal(n) + rest;
    DigitsOfDecimal(n, rest);
    assert text[0] == Decimal(n)[0];
    assert ("-" + text)[1..] == text;
  }

  /** White space before a number is skipped, and a text that begins otherwise is none. */
  lemma NumberBegins(c: char, rest: string)
    ensures c == ' ' || '\t' <= c <= '\r' ==> Number([c] + rest) == Number(rest)
    ensures c != ' ' && !('\t' <= c <= '\r') && c != '+' && c != '-' && !('0' <= c <= '9') ==>
              Number([c] + rest) == None
    ensures Number("") == None
  {
    assert ([c] + rest)[1..] == rest;
  }

  /** Three decimal numbers: the limit and the remaining count are cut to 16 bits, the reset is a time in
      seconds; a number that its conversion cannot hold is an exception. */
  lemma ReadDecimals(limit: nat, remaining: nat, reset: nat)
    ensures Read(Headers(Some(Decimal(limit)), Some(Decimal(remaining)), Some(Decimal(reset)))) ==
            if limit >= 0x1_0000_0000_0000_0000 || remaining >= 0x1_0000_0000_0000_0000 ||
               reset >= 0x8000_0000_0000_0000
            then Throws
            else Found(Limit(limit % 0x1_0000, remaining % 0x1_0000, reset * 1_000_000_000))
  {
    hide Decimal, Stoul, Stol;
    ConversionsOfDecimal(limit);
    ConversionsOfDecimal(remaining);
    ConversionsOfDecimal(reset);
  }

  lemma ConversionsOfDecimal(n: nat)
    ensures Stoul(Decimal(n)) == (if n < 0x1_0000_0000_0000_0000 then Some(n) else None)
    ensures Stol(Decimal(n)) == (if n < 0x8000_0000_0000_0000 then Some(n) else None)
    ensures Stoul("-" + Decimal(n)) == if 0 < n < 0x1_0000_0000_0000_0000 then Some(0x1_0000_0000_0000_0000 - n)
                                       else if n == 0 then Some(0) else None
    ensures Stol("-" + Decimal(n)) == (if n <= 0x8000_0000_0000_0000 then Some(-(n as int)) else None)
  {
    hide Decimal, Number;
    NumberOfDecimal(n, "");
    assert Decimal(n) + "" == Decimal(n);
  }
}
