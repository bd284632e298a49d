/** ARC device names: lists of name(unit) tokens, printed and read back, and the
    canonical form of a device name. */
module ArcNames {
  import opened FatFormat
  import Arith

  datatype Token = Token(name: string, unit: nat)

  // The decimal digits of a number.
  function Digits(n: nat): (r: string)
    ensures r != [] && forall i :: 0 <= i < |r| ==> '0' <= r[i] <= '9'
  {
    if n < 10 then [('0' as int + n) as char] else Digits(n / 10) + [('0' as int + n % 10) as char]
  }

  /** Unsigned numbers are printed by collecting digits backwards. */
  method EmitUint(out: string, val: nat) returns (r: string)
    ensures r == out + Digits(val)
  {
    hide Digits, Reversed;
    var tmp: string := [];
    var v := val;
    ZeroDigit();
    if v == 0 {
      tmp := ['0'];
    }
    NoneCollected(val);
    while v > 0
      invariant if v > 0 then Digits(val) == Digits(v) + Reversed(tmp) else Digits(val) == Reversed(tmp)
    {
      DigitCollected(v, tmp);
      assert v >= 10 ==>
          Digits(v / 10) + [('0' as int + v % 10) as char] + Reversed(tmp)
          == Digits(v / 10) + ([('0' as int + v % 10) as char] + Reversed(tmp));
      tmp := tmp + [('0' as int + v % 10) as char];
      v := v / 10;
    }
    r := out;
    var i: nat := |tmp|;
    assert tmp[..i] == tmp;
    while i > 0
      invariant i <= |tmp| && r + Reversed(tmp[..i]) == out + Reversed(tmp)
    {
      i := i - 1;
      assert tmp[..i + 1] == tmp[..i] + [tmp[i]];
      ReversedMore(tmp[..i], tmp[i]);
      assert r + ([tmp[i]] + Reversed(tmp[..i])) == r + [tmp[i]] + Reversed(tmp[..i]);
      r := r + [tmp[i]];
    }
    assert tmp[..0] == [] && r + [] == r;
  }

  lemma ZeroDigit()
    ensures Digits(0) == ['0'] == Reversed(['0']) && Reversed([]) == []
  {
    assert ['0'][1..] == [];
  }

  lemma NoneCollected(val: nat)
    ensures Digits(val) == Digits(val) + Reversed([])
  {
  }

  // The last digit of v, and what is left of it.
  lemma DigitCollected(v: nat, tmp: string)
    ensures var c := ('0' as int + v % 10) as char;
            && Digits(v) == (if v >= 10 then Digits(v / 10) else []) + [c]
            && Reversed(tmp + [c]) == [c] + Reversed(tmp)
  {
    ReversedMore(tmp, ('0' as int + v % 10) as char);
  }

  ghost function Reversed(s: string): string {
    if s == [] then [] else Reversed(s[1..]) + [s[0]]
  }

  lemma {:induction false} ReversedMore(s: string, c: char)
    ensures Reversed(s + [c]) == [c] + Reversed(s)
    decreases |s|
  {
    if s != [] {
      ReversedMore(s[1..], c);
      assert (s + [c])[1..] == s[1..] + [c];
    } else {
      assert [c][1..] == [];
    }
  }

  // The decimal form of a 32-bit value, taken as signed.
  function Decimal(n: nat): string
    requires n < 0x1_0000_0000
  {
    if n < 0x8000_0000 then Digits(n) else ['-'] + Digits(0x1_0000_0000 - n)
  }

  function Print(t: Token): string
    requires t.unit < 0x1_0000_0000
  {
    t.name + ['('] + Decimal(t.unit) + [')']
  }

  ghost predicate Units32(ts: seq<Token>) {
    forall k :: 0 <= k < |ts| ==> ts[k].unit < 0x1_0000_0000
  }

  ghost function PrintAll(ts: seq<Token>): string
    requires Units32(ts)
  {
    if ts == [] then [] else Print(ts[0]) + PrintAll(ts[1..])
  }

  // Up to the first of the stop characters, if any.
  function Before(s: string, stop: char): (r: string)
    ensures r <= s
  {
    if s == [] || s[0] == stop then [] else [s[0]] + Before(s[1..], stop)
  }

  // Reading a unit number: every character counts as a digit, in 32-bit arithmetic.
  function ReadUnit(n: nat, s: string): nat
    decreases |s|
  {
    if s == [] then n else ReadUnit((n * 10 + (s[0] as int - '0' as int)) % 0x1_0000_0000, s[1..])
  }

  /** The next token of a name, and what follows it. */
  function NextToken(s: string): (r: (Token, string))
    requires s != []
    ensures |r.1| < |s|
  {
    var name := Before(s, '(');
    var rest := s[|name|..];
    if rest == [] then (Token(name, 0), [])
    else
      var unit := Before(rest[1..], ')');
      var after := rest[1..][|unit|..];
      (Token(name, ReadUnit(0, unit)), if after == [] then [] else after[1..])
  }

  // The text up to the stop character, one character on.
  lemma BeforeStep(s: string, stop: char, i: nat)
    requires i <= |s| && Before(s, stop) == s[..i] + Before(s[i..], stop)
    ensures if i < |s| && s[i] != stop
            then Before(s[i..], stop) == [s[i]] + Before(s[i + 1..], stop)
                && Before(s, stop) == s[..i + 1] + Before(s[i + 1..], stop)
            else Before(s[i..], stop) == [] && Before(s, stop) == s[..i]
  {
    if i < |s| && s[i] != stop {
      assert s[i..][1..] == s[i + 1..];
    }
  }

  method TakeBefore(s: string, stop: char) returns (r: string)
    ensures r == Before(s, stop)
  {
    hide Before;
    var i := 0;
    BeforeStart(s, stop);
    BeforeStep(s, stop, i);
    while i < |s| && s[i] != stop
      invariant i <= |s| && Before(s, stop) == s[..i] + Before(s[i..], stop)
      invariant i < |s| && s[i] != stop ==> Before(s, stop) == s[..i + 1] + Before(s[i + 1..], stop)
      invariant !(i < |s| && s[i] != stop) ==> Before(s, stop) == s[..i]
    {
      i := i + 1;
      BeforeStep(s, stop, i);
    }
    r := s[..i];
  }

  lemma BeforeStart(s: string, stop: char)
    ensures Before(s, stop) == s[..0] + Before(s[0..], stop)
  {
    assert s[0..] == s;
  }

  lemma ReadStep(n: nat, c: char, s: string)
    ensures ReadUnit(n, [c] + s) == ReadUnit((n * 10 + (c as int - '0' as int)) % 0x1_0000_0000, s)
  {
    assert ([c] + s)[1..] == s;
  }

  method TakeUnit(s: string) returns (unit: nat, rest: string)
    ensures unit == ReadUnit(0, Before(s, ')')) && rest == s[|Before(s, ')')|..]
  {
    hide Before, ReadUnit;
    unit := 0;
    var i := 0;
    BeforeStart(s, ')');
    while i < |s| && s[i] != ')'
      invariant i <= |s| && Before(s, ')') == s[..i] + Before(s[i..], ')')
      invariant ReadUnit(0, Before(s, ')')) == ReadUnit(unit, Before(s[i..], ')'))
    {
      BeforeStep(s, ')', i);
      ReadStep(unit, s[i], Before(s[i + 1..], ')'));
      unit := (unit * 10 + (s[i] as int - '0' as int)) % 0x1_0000_0000;
      i := i + 1;
    }
    BeforeStep(s, ')', i);
    ReadNothing(unit);
    rest := s[i..];
  }

  lemma ReadNothing(n: nat)
    ensures ReadUnit(n, []) == n
  {
  }

  method GetNextToken(s: string) returns (rest: Option<string>, token: Token)
    ensures rest.None? <==> s == []
    ensures s != [] ==> NextToken(s) == (token, rest.value)
  {
    token := Token([], 0);
    if s == [] {
      return None, token;
    }
    var name := TakeBefore(s, '(');
    var left, unit := s[|name|..], 0;
    if left != [] {
      unit, left := TakeUnit(left[1..]);
      if left != [] {
        left := left[1..];
      }
    }
    return Some(left), Token(name, unit);
  }

  // All tokens of a name.
  function Tokens(s: string): seq<Token>
    decreases |s|
  {
    if s == [] then [] else [NextToken(s).0] + Tokens(NextToken(s).1)
  }

  /** Printed digits read back as the number. */
  lemma {:induction false} DigitsRead(n: nat)
    requires n < 0x1_0000_0000
    ensures ReadUnit(0, Digits(n)) == n
  {
    if n >= 10 {
      DigitsRead(n / 10);
      ReadAppend(0, Digits(n / 10), ('0' as int + n % 10) as char);
    } else {
      assert Digits(n)[1..] == [];
    }
  }

  lemma {:induction false} ReadAppend(n: nat, s: string, c: char)
    ensures ReadUnit(n, s + [c]) == (ReadUnit(n, s) * 10 + (c as int - '0' as int)) % 0x1_0000_0000
    decreases |s|
  {
    if s != [] {
      assert (s + [c])[1..] == s[1..] + [c];
      ReadAppend((n * 10 + (s[0] as int - '0' as int)) % 0x1_0000_0000, s[1..], c);
    } else {
      assert ([] + [c])[1..] == [];
    }
  }

  lemma {:induction false} BeforeStop(s: string, stop: char, rest: string)
    requires stop !in s
    ensures Before(s + [stop] + rest, stop) == s
    decreases |s|
  {
    if s != [] {
      assert (s + [stop] + rest)[1..] == s[1..] + [stop] + rest;
      BeforeStop(s[1..], stop, rest);
    }
  }

  lemma Tail(a: string, b: string)
    ensures |a| <= |a + b| && (a + b)[|a|..] == b
  {
  }

  // What NextToken makes of a name, a unit in parentheses, and more.
  lemma SplitToken(name: string, unit: string, rest: string)
    requires '(' !in name && ')' !in unit
    ensures NextToken(name + ['('] + unit + [')'] + rest) == (Token(name, ReadUnit(0, unit)), rest)
  {
    hide Before, ReadUnit;
    var tail := unit + [')'] + rest;
    var s := name + ['('] + unit + [')'] + rest;
    assert s == name + ['('] + tail && s == name + (['('] + tail);
    BeforeStop(name, '(', tail);
    Tail(name, ['('] + tail);
    Tail(['('], tail);
    BeforeStop(unit, ')', rest);
    assert tail == unit + ([')'] + rest);
    Tail(unit, [')'] + rest);
    Tail([')'], rest);
  }

  function Pow10(k: nat): (r: nat)
    ensures r > 0
  {
    if k == 0 then 1 else 10 * Pow10(k - 1)
  }

  lemma ModStep(x: int, d: int)
    ensures (x % 0x1_0000_0000 * 10 + d) % 0x1_0000_0000 == (x * 10 + d) % 0x1_0000_0000
  {
    var q := x / 0x1_0000_0000;
    assert x * 10 + d == x % 0x1_0000_0000 * 10 + d + q * 10 * 0x1_0000_0000;
    ModShift(x % 0x1_0000_0000 * 10 + d, q * 10);
  }

  lemma ModShift(a: int, k: int)
    ensures (a + k * 0x1_0000_0000) % 0x1_0000_0000 == a % 0x1_0000_0000
  {
  }

  /** Digits read after a number n: n shifted by as many places, plus their value. */
  lemma {:induction false} DigitsAfter(n: nat, m: nat)
    requires n < 0x1_0000_0000
    ensures ReadUnit(n, Digits(m)) == (n * Pow10(|Digits(m)|) + m) % 0x1_0000_0000
    decreases m
  {
    hide ReadUnit;
    var c := ('0' as int + m % 10) as char;
    if m < 10 {
      assert Digits(m) == [] + [c];
      ReadAppend(n, [], c);
      ReadNothing(n);
    } else {
      var p := Pow10(|Digits(m / 10)|);
      DigitsAfter(n, m / 10);
      ReadAppend(n, Digits(m / 10), c);
      ModStep(n * p + m / 10, m % 10);
      Shifted(n, p, m);
    }
  }

  lemma Shifted(n: nat, p: nat, m: nat)
    ensures (n * p + m / 10) * 10 + m % 10 == n * (10 * p) + m
  {
    assert n * (10 * p) == 10 * (n * p);
  }

  lemma {:induction false} DigitsCount(m: nat)
    ensures m < Pow10(|Digits(m)|) && (m > 0 ==> Pow10(|Digits(m)| - 1) <= m)
    decreases m
  {
    if m >= 10 {
      DigitsCount(m / 10);
    }
  }

  /** The i-th character stands for as many tens as characters follow it: the digits are those
      of the decimal system, and only zero starts with a zero. */
  lemma {:induction false} DigitsAreDecimal(m: nat, i: nat)
    requires i < |Digits(m)|
    ensures Digits(m)[i] as int - '0' as int == m / Pow10(|Digits(m)| - 1 - i) % 10
    ensures Digits(m)[0] == '0' ==> m == 0
    decreases m
  {
    var n := |Digits(m)| - 1 - i;
    if m >= 10 && n > 0 {
      DigitsAreDecimal(m / 10, i);
      DivTwice(m, Pow10(n - 1));
    } else if m >= 10 {
      DigitsAreDecimal(m / 10, 0);
    }
  }

  lemma DivTwice(m: nat, p: nat)
    requires p > 0
    ensures m / (10 * p) == m / 10 / p
  {
    var a := m / 10;
    var q, r := a / p, a % p;
    assert a == q * p + r;
    assert m == q * (10 * p) + (10 * r + m % 10);
    Arith.DivIsQuotient(q, 10 * p, 10 * r + m % 10);
  }

  lemma {:induction false} PowMono(j: nat, k: nat)
    requires j <= k
    ensures Pow10(j) <= Pow10(k)
    decreases k
  {
    if j < k {
      PowMono(j, k - 1);
    }
  }

  lemma Powers()
    ensures Pow10(9) == 1_000_000_000 && Pow10(10) == 10_000_000_000
  {
    assert Pow10(5) == 100_000 by { assert Pow10(2) == 100; assert Pow10(4) == 10_000; }
    assert Pow10(7) == 10_000_000;
  }

  // The units that survive printing as signed numbers and reading back.
  predicate ReadsBack(unit: nat) {
    unit < 0x8000_0000 || unit == 2_179_869_184
  }

  // The sign reads as the digit -3.
  lemma NegativeRead(m: nat)
    requires 0 < m <= 0x8000_0000
    ensures ReadUnit(0, Decimal(0x1_0000_0000 - m)) == (m - 3 * Pow10(|Digits(m)|)) % 0x1_0000_0000
  {
    hide ReadUnit, Digits;
    var p := Pow10(|Digits(m)|);
    ReadStep(0, '-', Digits(m));
    DigitsAfter(0x1_0000_0000 - 3, m);
    assert (0x1_0000_0000 - 3) * p + m == m - 3 * p + p * 0x1_0000_0000;
    ModShift(m - 3 * p, p);
  }

  // 2m is 3 * 10^k modulo 2^32 for no m of k digits but this one.
  lemma NegativeReadsBack(m: nat, p: nat)
    requires 0 < m <= 0x8000_0000 && m < p
    requires p <= 1_000_000_000 || (p == 10_000_000_000 && m >= 1_000_000_000)
    ensures (m - 3 * p) % 0x1_0000_0000 == 0x1_0000_0000 - m <==> m == 2_115_098_112
  {
    if p == 10_000_000_000 {
      assert m - 3 * p == (m - 30_000_000_000 + 7 * 0x1_0000_0000) + -7 * 0x1_0000_0000;
      ModShift(m - 30_000_000_000 + 7 * 0x1_0000_0000, -7);
    } else {
      ModShift(m - 3 * p + 0x1_0000_0000, -1);
    }
  }

  /** A printed unit reads back as itself if and only if it prints without a sign, one
      number excepted: 2179869184 prints as -2115098112, and with the sign read as a digit
      that wraps around to it again. */
  lemma UnitReadsBack(unit: nat)
    requires unit < 0x1_0000_0000
    ensures ReadUnit(0, Decimal(unit)) == unit <==> ReadsBack(unit)
  {
    hide ReadUnit, Digits, Pow10;
    if unit < 0x8000_0000 {
      DigitsRead(unit);
    } else {
      var m := 0x1_0000_0000 - unit;
      var k := |Digits(m)|;
      NegativeRead(m);
      DigitsCount(m);
      Powers();
      if k <= 9 {
        PowMono(k, 9);
      } else {
        PowMono(9, k - 1);
        if k > 10 {
          PowMono(10, k - 1);
        }
      }
      NegativeReadsBack(m, Pow10(k));
    }
  }

  // What a printed token reads back as.
  ghost function Reread(t: Token): Token
    requires t.unit < 0x1_0000_0000
  {
    Token(t.name, ReadUnit(0, Decimal(t.unit)))
  }

  ghost function RereadAll(ts: seq<Token>): (r: seq<Token>)
    requires Units32(ts)
    ensures |r| == |ts| && forall k :: 0 <= k < |ts| ==> r[k] == Reread(ts[k])
  {
    seq(|ts|, k requires 0 <= k < |ts| => Reread(ts[k]))
  }

  /** A name, an opening parenthesis, a 32-bit number in decimal and a closing one make a
      token, whatever follows. */
  lemma TokenRead(name: string, unit: nat, rest: string)
    requires '(' !in name && unit < 0x1_0000_0000
    ensures NextToken(name + "(" + Digits(unit) + ")" + rest) == (Token(name, unit), rest)
  {
    hide NextToken, Digits, ReadUnit;
    SplitToken(name, Digits(unit), rest);
    DigitsRead(unit);
  }

  lemma PrintedToken(t: Token, rest: string)
    requires t.unit < 0x1_0000_0000 && '(' !in t.name
    ensures NextToken(Print(t) + rest) == (Reread(t), rest)
  {
    hide NextToken, Digits, ReadUnit;
    SplitToken(t.name, Decimal(t.unit), rest);
  }

  ghost predicate PlainNames(ts: seq<Token>) {
    forall k :: 0 <= k < |ts| ==> '(' !in ts[k].name
  }

  lemma {:induction false} PrintedAs(ts: seq<Token>)
    requires Units32(ts) && PlainNames(ts)
    ensures Tokens(PrintAll(ts)) == RereadAll(ts)
    decreases |ts|
  {
    hide NextToken, Print, Reread;
    if ts != [] {
      PrintedAs(ts[1..]);
      PrintedToken(ts[0], PrintAll(ts[1..]));
      NotEmpty(ts[0], PrintAll(ts[1..]));
    }
  }

  lemma NotEmpty(t: Token, rest: string)
    requires t.unit < 0x1_0000_0000
    ensures Print(t) + rest != []
  {
  }

  // Names a token list can hold, and units that read back.
  ghost predicate Plain(ts: seq<Token>) {
    forall k :: 0 <= k < |ts| ==> '(' !in ts[k].name && ReadsBack(ts[k].unit)
  }

  /** Printing a list of tokens and reading it back gives the list if and only if no name
      holds a parenthesis and every unit reads back. */
  lemma PrintedTokens(ts: seq<Token>)
    requires Units32(ts)
    ensures Tokens(PrintAll(ts)) == ts <==> Plain(ts)
  {
    hide Tokens, PrintAll;
    TokensFit(PrintAll(ts));
    forall k | 0 <= k < |ts|
      ensures Reread(ts[k]) == ts[k] <==> ReadsBack(ts[k].unit)
    {
      UnitReadsBack(ts[k].unit);
    }
    if PlainNames(ts) {
      PrintedAs(ts);
    }
  }

  lemma {:induction false} ReadUnit32(n: nat, s: string)
    requires n < 0x1_0000_0000
    ensures ReadUnit(n, s) < 0x1_0000_0000
    decreases |s|
  {
    if s != [] {
      ReadUnit32((n * 10 + (s[0] as int - '0' as int)) % 0x1_0000_0000, s[1..]);
    }
  }

  lemma {:induction false} NoStop(s: string, stop: char)
    ensures stop !in Before(s, stop)
    decreases |s|
  {
    if s != [] && s[0] != stop {
      NoStop(s[1..], stop);
    }
  }

  lemma NextTokenFits(s: string)
    requires s != []
    ensures NextToken(s).0.unit < 0x1_0000_0000 && '(' !in NextToken(s).0.name
  {
    NoStop(s, '(');
    var rest := s[|Before(s, '(')|..];
    if rest != [] {
      ReadUnit32(0, Before(rest[1..], ')'));
    }
  }

  // What reading gives is always printable, and its names hold no parenthesis.
  lemma {:induction false} TokensFit(s: string)
    ensures Units32(Tokens(s)) && PlainNames(Tokens(s))
    decreases |s|
  {
    hide NextToken;
    if s != [] {
      NextTokenFits(s);
      TokensFit(NextToken(s).1);
    }
  }

  // Different units print differently.
  lemma DecimalInjective(a: nat, b: nat)
    requires a < 0x1_0000_0000 && b < 0x1_0000_0000 && Decimal(a) == Decimal(b)
    ensures a == b
  {
    hide Digits;
    if a < 0x8000_0000 {
      assert Decimal(a)[0] != '-';
      DigitsRead(a);
      DigitsRead(b);
    } else {
      assert Decimal(a)[0] == '-';
      var x, y := 0x1_0000_0000 - a, 0x1_0000_0000 - b;
      assert Decimal(a)[1..] == Digits(x) && Decimal(b)[1..] == Digits(y);
      DigitsRead(x);
      DigitsRead(y);
    }
  }

  lemma PrintParts(t: Token, rest: string)
    requires t.unit < 0x1_0000_0000
    ensures var s := Print(t) + rest;
            && |t.name| < |s| && Before(s[|t.name| + 1..], ')') == Decimal(t.unit)
            && |Print(t)| <= |s| && s[|Print(t)|..] == rest
  {
    hide Digits;
    var tail := Decimal(t.unit) + [')'] + rest;
    var s := Print(t) + rest;
    assert s == t.name + ['('] + tail;
    Tail(t.name + ['('], tail);
    BeforeStop(Decimal(t.unit), ')', rest);
    Tail(Print(t), rest);
  }

  // Lists of the same names print alike only if they are the same.
  lemma {:induction false} PrintInjective(ts: seq<Token>, us: seq<Token>)
    requires Units32(ts) && Units32(us) && |ts| == |us| && forall k :: 0 <= k < |ts| ==> ts[k].name == us[k].name
    requires PrintAll(ts) == PrintAll(us)
    ensures ts == us
    decreases |ts|
  {
    hide Print, Decimal;
    if ts != [] {
      PrintParts(ts[0], PrintAll(ts[1..]));
      PrintParts(us[0], PrintAll(us[1..]));
      DecimalInjective(ts[0].unit, us[0].unit);
      PrintInjective(ts[1..], us[1..]);
      assert ts == [ts[0]] + ts[1..] && us == [us[0]] + us[1..];
    }
  }
}
