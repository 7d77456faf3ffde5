/** Printing numbers in decimal, hexadecimal and other bases, and reading them back. */
module NumberPrinting {
  // ----- Digits and values -----

  /** The digits of n, most significant first; none for 0. */
  function DigitsOf(n: nat, base: nat): seq<nat>
    requires base >= 2
  {
    if n == 0 then [] else DigitsOf(n / base, base) + [n % base]
  }

  function Parse(ds: seq<nat>, base: nat): nat {
    if ds == [] then 0 else Parse(ds[..|ds| - 1], base) * base + ds[|ds| - 1]
  }

  function Pow(base: nat, k: nat): nat {
    if k == 0 then 1 else Pow(base, k - 1) * base
  }

  ghost predicate AreDigits(ds: seq<nat>, base: nat) {
    forall k {:trigger ds[k]} :: 0 <= k < |ds| ==> ds[k] < base
  }

  /** The digits are digits, begin with no zero and read back as the number. */
  lemma {:induction false} DigitsReadBack(n: nat, base: nat)
    requires base >= 2
    ensures AreDigits(DigitsOf(n, base), base) && Parse(DigitsOf(n, base), base) == n
    ensures n > 0 ==> DigitsOf(n, base) != [] && DigitsOf(n, base)[0] != 0
  {
    if n > 0 {
      DigitsReadBack(n / base, base);
      var front := DigitsOf(n / base, base);
      assert DigitsOf(n, base)[..|front|] == front;
      QuotientAndRemainder(n, base);
    }
  }

  lemma QuotientAndRemainder(n: nat, base: nat)
    requires base >= 1
    ensures n / base * base + n % base == n && n % base < base
  {
  }

  lemma SmallerQuotient(q: nat, r: nat, q': nat, r': nat, base: nat)
    requires r < base && q < q'
    ensures q * base + r < q' * base + r'
  {
    var d := q' - q - 1;
    assert q' == q + 1 + d;
    assert (q + 1 + d) * base == q * base + base + d * base;
  }

  lemma DivideBack(n: nat, q: nat, r: nat, base: nat)
    requires r < base && n == q * base + r
    ensures n / base == q && n % base == r
  {
    QuotientAndRemainder(n, base);
    if q < n / base {
      SmallerQuotient(q, r, n / base, n % base, base);
    } else if n / base < q {
      SmallerQuotient(n / base, n % base, q, r, base);
    }
  }

  lemma {:induction false} ParseIsPositive(ds: seq<nat>, base: nat)
    requires base >= 1 && ds != [] && ds[0] != 0
    ensures Parse(ds, base) > 0
  {
    if |ds| > 1 {
      ParseIsPositive(ds[..|ds| - 1], base);
      assert Parse(ds[..|ds| - 1], base) * base >= 1;
    } else {
      assert Parse(ds[..0], base) == 0;
    }
  }

  /** There is only one way to write a number without leading zeros. */
  lemma {:induction false} DigitsAreUnique(ds: seq<nat>, base: nat)
    requires base >= 2 && AreDigits(ds, base) && (ds != [] ==> ds[0] != 0)
    ensures DigitsOf(Parse(ds, base), base) == ds
  {
    if ds != [] {
      var front := ds[..|ds| - 1];
      DigitsAreUnique(front, base);
      DivideBack(Parse(ds, base), Parse(front, base), ds[|ds| - 1], base);
      ParseIsPositive(ds, base);
    }
  }

  /** At most k digits are needed exactly for the numbers below the k-th power. */
  lemma {:induction false} DigitCountIff(n: nat, base: nat, k: nat)
    requires base >= 2
    ensures |DigitsOf(n, base)| <= k <==> n < Pow(base, k)
  {
    if k > 0 && n > 0 {
      DigitCountIff(n / base, base, k - 1);
      BelowProductIff(n, base, Pow(base, k - 1));
    } else {
      PowIsPositive(base, k);
    }
  }

  lemma {:induction false} PowIsPositive(base: nat, k: nat)
    requires base >= 1
    ensures Pow(base, k) >= 1
  {
    if k > 0 {
      PowIsPositive(base, k - 1);
    }
  }

  lemma BelowProductIff(n: nat, base: nat, p: nat)
    requires base >= 1
    ensures n / base < p <==> n < p * base
  {
    QuotientAndRemainder(n, base);
    var q := n / base;
    if q < p {
      assert (q + 1) * base <= p * base;
    } else {
      assert q * base >= p * base;
    }
  }

  /** 64-bit numbers have at most 20 decimal digits. */
  lemma TwentyDigits(n: nat)
    requires n < 0x1_0000_0000_0000_0000
    ensures |DigitsOf(n, 10)| <= 20
  {
    assert Pow(10, 5) == 100000;
    assert Pow(10, 10) == 10000000000;
    assert Pow(10, 15) == 1000000000000000;
    assert Pow(10, 20) == 100000000000000000000;
    DigitCountIff(n, 10, 20);
  }

  // ----- Characters -----

  function LowerCase(d: nat): char
    requires d < 36
  {
    if d < 10 then '0' + d as char else 'a' + (d - 10) as char
  }

  function UpperCase(d: nat): char
    requires d < 16
  {
    if d < 10 then '0' + d as char else 'A' + (d - 10) as char
  }

  function DigitValue(c: char): nat {
    if '0' <= c <= '9' then (c - '0') as nat
    else if 'a' <= c <= 'z' then (c - 'a') as nat + 10
    else if 'A' <= c <= 'Z' then (c - 'A') as nat + 10
    else 0
  }

  function Values(s: string): (ds: seq<nat>)
    ensures |ds| == |s|
  {
    seq(|s|, i requires 0 <= i < |s| => DigitValue(s[i]))
  }

  function Lower(ds: seq<nat>): (s: string)
    requires AreDigits(ds, 36)
    ensures |s| == |ds|
  {
    seq(|ds|, i requires 0 <= i < |ds| => LowerCase(ds[i]))
  }

  function Upper(ds: seq<nat>): (s: string)
    requires AreDigits(ds, 16)
    ensures |s| == |ds|
  {
    seq(|ds|, i requires 0 <= i < |ds| => UpperCase(ds[i]))
  }

  /** A number with an optional sign, read back. */
  function ParseText(s: string, base: nat): int {
    if s != [] && s[0] == '-' then -(Parse(Values(s[1..]), base) as int)
    else if s != [] && s[0] == '+' then Parse(Values(s[1..]), base)
    else Parse(Values(s), base)
  }

  lemma LowerReadsBack(ds: seq<nat>)
    requires AreDigits(ds, 36)
    ensures Values(Lower(ds)) == ds
    ensures forall k {:trigger Lower(ds)[k]} :: 0 <= k < |ds| ==> Lower(ds)[k] != '-' && Lower(ds)[k] != '+'
  {
  }

  lemma UpperReadsBack(ds: seq<nat>)
    requires AreDigits(ds, 16)
    ensures Values(Upper(ds)) == ds
    ensures forall k {:trigger Upper(ds)[k]} :: 0 <= k < |ds| ==> Upper(ds)[k] != '-' && Upper(ds)[k] != '+'
  {
  }

  /** What is printed for a number: "0" for zero, otherwise its digits. */
  function Text(n: nat, base: nat): string
    requires 2 <= base <= 36
  {
    DigitsReadBack(n, base);
    if n == 0 then "0" else Lower(DigitsOf(n, base))
  }

  function SignedText(n: int, base: nat, plus: bool): string
    requires 2 <= base <= 36
  {
    if n < 0 then "-" + Text(-n, base) else if plus then "+" + Text(n, base) else Text(n, base)
  }

  lemma TextReadsBack(n: nat, base: nat)
    requires 2 <= base <= 36
    ensures Parse(Values(Text(n, base)), base) == n && Text(n, base) != [] && Text(n, base)[0] != '-'
        && Text(n, base)[0] != '+'
    ensures n > 0 ==> Text(n, base)[0] != '0'
  {
    DigitsReadBack(n, base);
    if n > 0 {
      LowerReadsBack(DigitsOf(n, base));
      assert Text(n, base)[0] == Lower(DigitsOf(n, base))[0];
    } else {
      assert Values("0") == [0];
    }
  }

  /** Printed numbers read back as what was printed. */
  lemma SignedTextReadsBack(n: int, base: nat, plus: bool)
    requires 2 <= base <= 36
    ensures ParseText(SignedText(n, base, plus), base) == n
  {
    TextReadsBack(if n < 0 then -n else n, base);
    var s, text := SignedText(n, base, plus), Text(if n < 0 then -n else n, base);
    if n < 0 || plus {
      assert s[1..] == text;
    }
  }

  // ----- Hexadecimal -----

  function Zeros(n: nat): seq<nat> { seq(n, _ => 0) }

  /** At least m digits: zeros in front if there are fewer. */
  function Padded(n: nat, m: nat): (ds: seq<nat>)
    ensures AreDigits(ds, 16)
  {
    DigitsReadBack(n, 16);
    var ds := DigitsOf(n, 16);
    if |ds| < m then Zeros(m - |ds|) + ds else ds
  }

  lemma {:induction false} ZerosInFront(k: nat, ds: seq<nat>, base: nat)
    ensures Parse(Zeros(k) + ds, base) == Parse(ds, base)
  {
    var s := Zeros(k) + ds;
    if ds != [] {
      ZerosInFront(k, ds[..|ds| - 1], base);
      assert s[..|s| - 1] == Zeros(k) + ds[..|ds| - 1];
    } else if k > 0 {
      ZerosInFront(k - 1, [], base);
      assert s[..k - 1] == Zeros(k - 1) + [];
    }
  }

  /** Padded numbers read back, and are as long as asked for or as needed. */
  lemma PaddedReadsBack(n: nat, m: nat)
    ensures Parse(Values(Upper(Padded(n, m))), 16) == n
    ensures |Padded(n, m)| == if |DigitsOf(n, 16)| < m then m else |DigitsOf(n, 16)|
  {
    DigitsReadBack(n, 16);
    UpperReadsBack(Padded(n, m));
    if |DigitsOf(n, 16)| < m {
      ZerosInFront(m - |DigitsOf(n, 16)|, DigitsOf(n, 16), 16);
    }
  }

  lemma {:induction false} PowAdd(base: nat, a: nat, b: nat)
    ensures Pow(base, a) * Pow(base, b) == Pow(base, a + b)
  {
    if b > 0 {
      PowAdd(base, a, b - 1);
      Regroup3(Pow(base, a), Pow(base, b - 1), base);
    }
  }

  lemma Regroup3(x: nat, y: nat, z: nat)
    ensures x * (y * z) == x * y * z
  {
  }

  lemma PowStep(base: nat, k: nat)
    ensures Pow(base, k + 1) == Pow(base, k) * base
  {
  }

  lemma SixteenToThe()
    ensures Pow(16, 15) == 0x1000_0000_0000_0000 && Pow(16, 16) == 0x1_0000_0000_0000_0000
  {
    assert Pow(16, 4) == 0x1_0000;
    assert Pow(16, 8) == 0x1_0000_0000;
    assert Pow(16, 12) == 0x1_0000_0000_0000;
  }

  /** Shifting left by four bits brings the next digit to the top; rest is what has not been printed. */
  lemma ShiftLeft(hex: nat, rest: nat, i: nat)
    requires i < 16 && rest < Pow(16, 16 - i) && hex == rest * Pow(16, i)
    ensures Pow(16, 15 - i) > 0 && hex / 0x1000_0000_0000_0000 == rest / Pow(16, 15 - i) < 16
    ensures hex * 16 % 0x1_0000_0000_0000_0000 == rest % Pow(16, 15 - i) * Pow(16, i + 1)
  {
    hide Pow;
    var p, w := Pow(16, 15 - i), Pow(16, i);
    PowStep(16, 15 - i);
    PowStep(16, i);
    PowIsPositive(16, 15 - i);
    PowIsPositive(16, i);
    PowAdd(16, 15 - i, i);
    SixteenToThe();
    QuotientAndRemainder(rest, p);
    ShiftParts(hex, rest, p, w, rest / p, rest % p);
  }

  lemma ShiftParts(hex: nat, rest: nat, p: nat, w: nat, q: nat, r: nat)
    requires rest == q * p + r && r < p && rest < p * 16 && w > 0 && p * w == 0x1000_0000_0000_0000 && hex == rest * w
    ensures hex / 0x1000_0000_0000_0000 == q < 16 && hex * 16 % 0x1_0000_0000_0000_0000 == r * (w * 16)
  {
    if q >= 16 {
      SmallProduct(15, q, p);
    }
    SmallProduct(r, p, w);
    Distribute(q, p, r, w);
    TopDigit(hex, q, r * w);
    Regroup(r, w);
  }

  lemma Distribute(q: nat, p: nat, r: nat, w: nat)
    ensures (q * p + r) * w == q * (p * w) + r * w
  {
  }

  lemma Regroup(r: nat, w: nat)
    ensures r * w * 16 == r * (w * 16)
  {
  }

  lemma TopDigit(hex: nat, q: nat, x: nat)
    requires hex == q * 0x1000_0000_0000_0000 + x && x < 0x1000_0000_0000_0000
    ensures hex / 0x1000_0000_0000_0000 == q && hex * 16 % 0x1_0000_0000_0000_0000 == x * 16
  {
  }

  lemma SmallProduct(r: nat, p: nat, w: nat)
    requires r < p && w > 0
    ensures r * w < p * w
  {
    var d := p - r;
    assert (r + d) * w == r * w + d * w;
  }

  /** One more digit. */
  lemma PaddedGrows(v: nat, d: nat, m: nat)
    requires d < 16
    ensures Padded(v * 16 + d, m + 1) == Padded(v, m) + [d]
    ensures v * 16 + d > 0 ==> Padded(v * 16 + d, 0) == Padded(v, 0) + [d]
  {
    DivideBack(v * 16 + d, v, d, 16);
    var ds, n := DigitsOf(v, 16), v * 16 + d;
    if n > 0 {
      assert DigitsOf(n, 16) == ds + [d];
      if |ds| < m {
        assert Zeros(m - |ds|) + (ds + [d]) == Zeros(m - |ds|) + ds + [d];
      }
    } else {
      assert Zeros(m + 1) == Zeros(m) + [0];
    }
  }

  /** The digits of dec above position j have been printed, and div is the power for the next one; 0 is printed, too. */
  ghost predicate DecSoFar(dec: nat, k: nat, j: nat, div: nat, done: seq<nat>) {
    && div == (if j == 0 then 0 else Pow(10, j - 1)) && j <= k + 1
    && (dec > 0 && j > 0 ==> Top(dec, j - 1) > 0)
    && done == (if dec == 0 && j == 0 then [0] else DigitsOf(Top(dec, j), 10))
    && (dec == 0 ==> k == 0 && Top(dec, j) == 0)
    && AreDigits(done, 10)
  }

  lemma DecStarts(dec: nat, power: nat, k: nat)
    requires power == Pow(10, k) && Top(dec, k + 1) == 0 && (if dec == 0 then k == 0 else Top(dec, k) > 0)
    ensures DecSoFar(dec, k, k + 1, power, []) && power > 0
  {
    PowIsPositive(10, k);
  }

  lemma DecStep(dec: nat, k: nat, j: nat, div: nat, done: seq<nat>, digit: nat)
    requires DecSoFar(dec, k, j, div, done) && div > 0 && digit == dec / div % 10
    ensures j > 0 && digit < 10 && DecSoFar(dec, k, j - 1, div / 10, done + [digit])
  {
    TopStep(dec, j);
  }

  lemma DecEnds(dec: nat, k: nat, j: nat, done: seq<nat>)
    requires DecSoFar(dec, k, j, 0, done)
    ensures AreDigits(done, 10) && Lower(done) == Text(dec, 10)
  {
    if j > 0 {
      PowIsPositive(10, j - 1);
    }
    if dec == 0 {
      assert Lower([0]) == "0";
    }
  }

  class Output {
    var text: string

    constructor ()
      ensures text == ""
    {
      text := "";
    }

    method Print(c: char)
      modifies this
      ensures text == old(text) + [c]
    {
      text := text + [c];
    }

    /** The lowest maxSize digits of a number, with at least minSize digits if there are so many. */
    method PrintHex(number: nat, minimum: nat, maxSize: nat)
      requires number < 0x1_0000_0000_0000_0000 && minimum <= 16
      modifies this
      ensures maxSize < 16 ==>
                var shown := if minimum > maxSize then maxSize else minimum;
                Pow(16, maxSize) > 0 && text == old(text) + Upper(Padded(number % Pow(16, maxSize), shown))
      ensures maxSize >= 16 ==> text == old(text) + Upper(Padded(number, minimum))
    {
      var hex: nat, minSize: nat := number, minimum;
      if maxSize < 16 {
        PowIsPositive(16, maxSize);
        hex := hex % Pow(16, maxSize);
        if minSize > maxSize {
          minSize := maxSize;
        }
      }
      SplitStarts(hex);
      PrintDigits(hex, minSize, hex);
    }

    /** The loop of print: skips zeros in front, but not among the last m digits. */
    method PrintDigits(number: nat, m: nat, ghost h: nat)
      requires m <= 16 && Split(h, number, 0, h, 0)
      modifies this
      ensures text == old(text) + Upper(Padded(h, m))
    {
      var hex: nat := number;
      var minSize := 16 - m;
      ghost var v: nat, rest: nat, before := 0, h, text;
      PrintedStarts(m, text);
      for i := 0 to 16
        invariant Split(h, hex, v, rest, i)
        invariant Skips(minSize, v, i, m) && Printed(text, before, v, i, m)
      {
        var digit;
        digit, hex, rest := Shift(h, hex, v, rest, i);
        PrintedGrows(text, before, v, digit, i, m);
        minSize := PrintDigit(i, minSize, digit, v, m);
        v := Append(v, digit);
      }
      PrintedEnds(h, hex, v, rest, text, before, m);
    }

    /** One round of the loop. */
    method PrintDigit(i: nat, oldMinSize: nat, digit: nat, ghost v: nat, ghost m: nat) returns (minSize: nat)
      requires i < 16 && m <= 16 && digit < 16 && Skips(oldMinSize, v, i, m)
      modifies this
      ensures Skips(minSize, Append(v, digit), i + 1, m)
      ensures text == old(text) + (if Append(v, digit) > 0 || i >= 16 - m then [UpperCase(digit)] else "")
    {
      minSize := oldMinSize;
      if digit != 0 {
        minSize := i;
      }
      if i >= minSize {
        Print(UpperCase(digit));
      }
    }

    /** printDec of an unsigned number. */
    method PrintDec(dec: nat)
      requires dec < 0x1_0000_0000_0000_0000
      modifies this
      ensures text == old(text) + Text(dec, 10)
    {
      var div: nat := 1;
      ghost var k := 0;
      while dec / div >= 10
        invariant Multiplier(dec, div, k) && text == old(text)
        decreases dec - div
      {
        MultiplierGrows(dec, div, k);
        div := div * 10;
        k := k + 1;
      }
      TopStep(dec, k + 1);
      PrintFrom(dec, div, k);
    }

    /** The second loop of printDec: one digit for each power of ten from div down. */
    method PrintFrom(dec: nat, power: nat, ghost k: nat)
      requires power == Pow(10, k) && Top(dec, k + 1) == 0 && (if dec == 0 then k == 0 else Top(dec, k) > 0)
      modifies this
      ensures text == old(text) + Text(dec, 10)
    {
      hide Top, Pow, DigitsOf;
      var div := power;
      ghost var j: nat, done: seq<nat> := k + 1, [];
      DecStarts(dec, power, k);
      while div > 0
        invariant DecSoFar(dec, k, j, div, done) && text == old(text) + Lower(done)
        decreases j
      {
        var digit := dec / div % 10;
        DecStep(dec, k, j, div, done, digit);
        Print('0' + digit as char);
        TextGrows(done, digit);
        done := done + [digit];
        div := div / 10;
        j := j - 1;
      }
      DecEnds(dec, k, j, done);
    }

    /** printDec of a signed number. */
    method PrintDecSigned(value: int, printPlus: bool)
      requires -0x8000_0000_0000_0000 <= value < 0x8000_0000_0000_0000
      modifies this
      ensures text == old(text) + SignedText(value, 10, printPlus)
    {
      var dec := value;
      ghost var before := text;
      if dec < 0 {
        Print('-');
        dec := Negated(dec);
      } else if printPlus {
        Print('+');
      }
      SignedParts(before, value, printPlus);
      PrintDec(AsUnsigned(dec));
    }
  }

  function Sign(value: int, printPlus: bool): string {
    if value < 0 then "-" else if printPlus then "+" else ""
  }

  /** The sign and then the magnitude, which is right even for the least number: its negation is read as unsigned. */
  lemma SignedParts(before: string, value: int, printPlus: bool)
    requires -0x8000_0000_0000_0000 <= value < 0x8000_0000_0000_0000
    ensures var magnitude := AsUnsigned(if value < 0 then Negated(value) else value);
            before + Sign(value, printPlus) + Text(magnitude, 10) == before + SignedText(value, 10, printPlus)
  {
  }

  /** Negation of a 64-bit number, which leaves the least one as it is. */
  function Negated(x: int): int { if x == -0x8000_0000_0000_0000 then x else -x }

  function AsUnsigned(x: int): nat
    requires -0x8000_0000_0000_0000 <= x < 0x8000_0000_0000_0000
  {
    if x < 0 then x + 0x1_0000_0000_0000_0000 else x
  }

  /** The number without its last j digits. */
  function Top(dec: nat, j: nat): nat {
    PowIsPositive(10, j);
    dec / Pow(10, j)
  }

  /** The digit of weight Pow(10, j - 1). */
  lemma TopStep(dec: nat, j: nat)
    requires j > 0
    ensures Pow(10, j - 1) > 0 && dec / Pow(10, j - 1) == Top(dec, j - 1) && Top(dec, j - 1) / 10 == Top(dec, j)
    ensures Top(dec, j - 1) > 0 ==> DigitsOf(Top(dec, j - 1), 10) == DigitsOf(Top(dec, j), 10) + [Top(dec, j - 1) % 10]
    ensures j > 1 ==> Pow(10, j - 1) / 10 == Pow(10, j - 2) && Top(dec, j - 2) >= Top(dec, j - 1)
    ensures j == 1 ==> Pow(10, j - 1) / 10 == 0 && Top(dec, 0) == dec
    ensures dec == 0 ==> Top(dec, j) == 0 && Top(dec, j - 1) == 0
  {
    PowIsPositive(10, j - 1);
    DivideTwice(dec, Pow(10, j - 1));
    if j > 1 {
      PowIsPositive(10, j - 2);
      DivideTwice(dec, Pow(10, j - 2));
    }
  }

  /** Dividing by ten after dividing by div is dividing by ten times div. */
  lemma DivideTwice(n: nat, div: nat)
    requires div > 0
    ensures n / div / 10 == n / (div * 10)
  {
    var q := n / div;
    QuotientAndRemainder(n, div);
    QuotientAndRemainder(q, 10);
    assert n == q / 10 * (div * 10) + (q % 10 * div + n % div) by {
      assert (q / 10 * 10 + q % 10) * div == q / 10 * (div * 10) + q % 10 * div;
    }
    SmallerQuotient(q % 10, n % div, 10, 0, div);
    DivideBack(n, q / 10, q % 10 * div + n % div, div * 10);
  }

  /** The multiplier is a power of ten that fits into 64 bits. */
  ghost predicate Multiplier(dec: nat, div: nat, k: nat) {
    0 < div < 0x1_0000_0000_0000_0000 && div == Pow(10, k) && dec / div == Top(dec, k) && (k > 0 ==> dec / div > 0)
  }

  lemma MultiplierGrows(dec: nat, div: nat, k: nat)
    requires Multiplier(dec, div, k) && dec < 0x1_0000_0000_0000_0000 && dec / div >= 10
    ensures Multiplier(dec, div * 10, k + 1) && div * 10 <= dec
  {
    QuotientAndRemainder(dec, div);
    AtLeastTen(dec / div, div);
    TopStep(dec, k + 1);
    assert div * 10 == Pow(10, k + 1);
  }

  lemma AtLeastTen(q: nat, div: nat)
    requires q >= 10
    ensures q * div >= 10 * div
  {
    assert (10 + (q - 10)) * div == 10 * div + (q - 10) * div;
  }

  lemma TextGrows(ds: seq<nat>, d: nat)
    requires AreDigits(ds, 10) && d < 10
    ensures AreDigits(ds + [d], 10) && Lower(ds + [d]) == Lower(ds) + ['0' + d as char]
  {
  }

  /** How many of the first i digits are printed even if they are zeros. */
  function Least(i: nat, m: nat): nat { if i + m >= 16 then i + m - 16 else 0 }

  /** The digits printed after i rounds, when v is the value of the first i digits. */
  ghost predicate Printed(text: string, before: string, v: nat, i: nat, m: nat) {
    text == before + Upper(Padded(v, Least(i, m)))
  }

  /** The local minSize: the place of the last nonzero digit so far, or where the last m digits begin. */
  ghost predicate Skips(minSize: int, v: nat, i: nat, m: nat) {
    if v > 0 then 0 <= minSize < i else minSize == 16 - m
  }

  lemma PrintedStarts(m: nat, text: string)
    requires m <= 16
    ensures Printed(text, text, 0, 0, m)
  {
    assert Padded(0, 0) == [];
  }

  lemma PrintedEnds(h: nat, hex: nat, v: nat, rest: nat, text: string, before: string, m: nat)
    requires Split(h, hex, v, rest, 16) && m <= 16 && Printed(text, before, v, 16, m)
    ensures text == before + Upper(Padded(h, m))
  {
    SplitEnds(h, hex, v, rest);
  }

  function Append(v: nat, digit: nat): (r: nat)
    ensures r > 0 <==> v > 0 || digit > 0
  {
    v * 16 + digit
  }

  /** A digit is printed unless it is a zero in front of the last m digits. */
  lemma PrintedGrows(text: string, before: string, v: nat, digit: nat, i: nat, m: nat)
    requires Printed(text, before, v, i, m) && digit < 16 && i < 16 && m <= 16
    ensures Printed(text + (if Append(v, digit) > 0 || i >= 16 - m then [UpperCase(digit)]
        else ""), before, Append(v, digit), i + 1, m)
  {
    var done := Padded(v, Least(i, m));
    PaddedGrows(v, digit, Least(i, m));
    UpperGrows(done, digit);
    assert before + Upper(done) + [UpperCase(digit)] == before + (Upper(done) + [UpperCase(digit)]);
  }

  lemma UpperGrows(ds: seq<nat>, d: nat)
    requires AreDigits(ds, 16) && d < 16
    ensures AreDigits(ds + [d], 16) && Upper(ds + [d]) == Upper(ds) + [UpperCase(d)]
  {
  }

  /** The topmost digit, and the others one place higher. */
  method Shift(ghost h: nat, hex: nat, ghost v: nat, ghost rest: nat, ghost i: nat) returns (digit: nat,
      shifted: nat, ghost rest': nat)
    requires i < 16 && Split(h, hex, v, rest, i)
    ensures digit < 16 && Split(h, shifted, Append(v, digit), rest', i + 1)
  {
    rest' := SplitStep(h, hex, v, rest, i);
    digit, shifted := hex / 0x1000_0000_0000_0000, hex * 16 % 0x1_0000_0000_0000_0000;
  }

  /** v is the value of the first i digits of h and rest that of the others, which are shifted to the top of hex. */
  ghost predicate Split(h: nat, hex: nat, v: nat, rest: nat, i: nat) {
    i <= 16 && rest < Pow(16, 16 - i) && hex == rest * Pow(16, i) && v * Pow(16, 16 - i) + rest == h
  }

  lemma SplitStarts(h: nat)
    requires h < 0x1_0000_0000_0000_0000
    ensures Split(h, h, 0, h, 0)
  {
    SixteenToThe();
  }

  lemma SplitStep(h: nat, hex: nat, v: nat, rest: nat, i: nat) returns (rest': nat)
    requires i < 16 && Split(h, hex, v, rest, i)
    ensures hex / 0x1000_0000_0000_0000 < 16
    ensures Split(h, hex * 16 % 0x1_0000_0000_0000_0000, Append(v, hex / 0x1000_0000_0000_0000), rest', i + 1)
  {
    ShiftLeft(hex, rest, i);
    NextDigit(v, rest, h, i);
    rest' := rest % Pow(16, 15 - i);
    QuotientAndRemainder(rest, Pow(16, 15 - i));
  }

  lemma SplitEnds(h: nat, hex: nat, v: nat, rest: nat)
    requires Split(h, hex, v, rest, 16)
    ensures v == h
  {
  }

  lemma NextDigit(v: nat, rest: nat, h: nat, i: nat)
    requires i < 16 && v * Pow(16, 16 - i) + rest == h
    ensures Pow(16, 15 - i) > 0 && (v * 16 + rest / Pow(16, 15 - i)) * Pow(16, 15 - i) + rest % Pow(16, 15 - i) == h
  {
    hide Pow;
    PowIsPositive(16, 15 - i);
    PowStep(16, 15 - i);
    DigitMoves(v, rest, h, Pow(16, 15 - i));
  }

  lemma DigitMoves(v: nat, rest: nat, h: nat, p: nat)
    requires p > 0 && v * (p * 16) + rest == h
    ensures (v * 16 + rest / p) * p + rest % p == h
  {
    QuotientAndRemainder(rest, p);
    SumTimes(v * 16, rest / p, p);
    SixteenTimes(v, p);
  }

  lemma SumTimes(a: nat, q: nat, p: nat)
    ensures (a + q) * p == a * p + q * p
  {
  }

  lemma SixteenTimes(v: nat, p: nat)
    ensures v * 16 * p == v * (p * 16)
  {
  }

  // ----- Writing into a buffer -----

  function Reversed(s: string): (r: string)
    ensures |r| == |s|
  {
    seq(|s|, i requires 0 <= i < |s| => s[|s| - 1 - i])
  }

  /** Swaps the first n characters end for end, from the outside in. */
  method Reverse(buffer: array<char>, n: nat)
    requires 0 < n <= buffer.Length
    modifies buffer
    ensures buffer[..n] == Reversed(old(buffer[..n])) && buffer[n..] == old(buffer[n..])
  {
    var start, end2 := 0, n - 1;
    while start < end2
      invariant 0 <= start <= end2 + 1 && start + end2 == n - 1
      invariant forall k {:trigger buffer[k]} :: 0 <= k < buffer.Length ==>
        buffer[k] == if k < n && (k < start || k > end2) then old(buffer[n - 1 - k]) else old(buffer[k])
    {
      buffer[start], buffer[end2] := buffer[end2], buffer[start];
      start := start + 1;
      end2 := end2 - 1;
    }
  }

  /** The digits that the loop writes: none for the least number, whose negation is negative. */
  function Magnitude(n: int, base: nat): string
    requires 2 <= base <= 36
  {
    if n > 0 then Text(n, base) else ""
  }

  lemma WrittenParts(value: int, base: nat)
    requires -0x8000_0000_0000_0000 <= value && value != 0 && 2 <= base <= 36
    ensures if value < 0 then Written(value, base) == "-" + Magnitude(Negated(value), base)
        else Written(value, base) == "" + Magnitude(value, base)
    ensures Magnitude(value, base) != "" <==> value > 0
  {
    TextReadsBack(if value < 0 then -value else value, base);
  }

  lemma ReversedWithSign(text: string, sign: string)
    requires |sign| <= 1
    ensures Reversed(Reversed(text) + sign) == sign + text
  {
  }

  /** What intToString leaves in the buffer: the number with its sign, but only the sign for the least number,
      whose negation is still negative. */
  function Written(value: int, base: nat): string
    requires 2 <= base <= 36
  {
    if value == -0x8000_0000_0000_0000 then "-" else SignedText(value, base, false)
  }

  /** The written number reads back exactly if it is not the least one. */
  lemma WrittenReadsBackIff(value: int, base: nat)
    requires 2 <= base <= 36
    ensures ParseText(Written(value, base), base) == value <==> value != -0x8000_0000_0000_0000
  {
    if value == -0x8000_0000_0000_0000 {
      assert Values("-"[1..]) == [];
    } else {
      SignedTextReadsBack(value, base, false);
    }
  }

  lemma DigitsFit(value: nat, base: nat)
    requires 2 <= base && value < 0x8000_0000_0000_0000
    ensures |DigitsOf(value, base)| <= 63
  {
    assert Pow(2, 7) == 0x80;
    PowAdd(2, 7, 7);
    PowAdd(2, 14, 7);
    PowAdd(2, 21, 21);
    PowAdd(2, 42, 21);
    assert Pow(2, 63) == 0x8000_0000_0000_0000;
    PowGrows(2, base, 63);
    DigitCountIff(value, base, 63);
  }

  lemma {:induction false} PowGrows(a: nat, b: nat, k: nat)
    requires 1 <= a <= b
    ensures Pow(a, k) <= Pow(b, k)
  {
    if k > 0 {
      PowGrows(a, b, k - 1);
      PowIsPositive(a, k - 1);
      ProductsGrow(Pow(a, k - 1), a, Pow(b, k - 1), b);
    }
  }

  lemma ProductsGrow(p: nat, a: nat, q: nat, b: nat)
    requires p <= q && a <= b
    ensures p * a <= q * b
  {
    assert (p + (q - p)) * (a + (b - a)) == p * a + p * (b - a) + (q - p) * a + (q - p) * (b - a);
  }

  /** The digits of value after those of rest have been written, last one first. */
  ghost predicate Partly(s: string, value: nat, rest: nat, base: nat)
    requires 2 <= base <= 36
  {
    var ds, front := DigitsOf(value, base), DigitsOf(rest, base);
    front <= ds && AreDigits(ds[|front|..], 36) && s == Reversed(Lower(ds[|front|..]))
  }

  lemma PartlyGrows(s: string, value: nat, rest: nat, quotient: nat, d: nat, base: nat)
    requires 2 <= base <= 36 && Partly(s, value, rest, base) && rest > 0 && quotient == rest / base
        && d == rest % base < 36
    requires value < 0x8000_0000_0000_0000
    ensures Partly(s + [LowerCase(d)], value, quotient, base)
    ensures |s| < 63
  {
    DigitsFit(value, base);
    var ds, front := DigitsOf(value, base), DigitsOf(quotient, base);
    assert DigitsOf(rest, base) == front + [d];
    assert ds[|front|] == (front + [d])[|front|] == d;
    var tail := ds[|front| + 1..];
    assert ds[|front|..] == [d] + tail;
    assert Reversed(Lower([d] + tail)) == Reversed(Lower(tail)) + [LowerCase(d)];
  }

  lemma PartlyEnds(s: string, value: nat, base: nat)
    requires 2 <= base <= 36 && Partly(s, value, 0, base) && value > 0
    ensures s == Reversed(Text(value, base)) && |s| == |DigitsOf(value, base)|
  {
    assert DigitsOf(value, base)[0..] == DigitsOf(value, base);
  }

  lemma PartlyStarts(value: nat, base: nat)
    requires 2 <= base <= 36 && value < 0x8000_0000_0000_0000
    ensures Partly("", value, value, base) && |DigitsOf(value, base)| <= 63
  {
    DigitsFit(value, base);
    assert DigitsOf(value, base)[|DigitsOf(value, base)|..] == [];
    assert Reversed(Lower([])) == "";
  }

  lemma QuotientIsLess(n: nat, base: nat)
    requires base >= 2 && n > 0
    ensures n / base < n && n % base < base
  {
    QuotientAndRemainder(n, base);
    if n / base >= n {
      ProductsGrow(n, 2, n / base, base);
    }
  }

  /** The loop of intToString: the digits of a positive number from the last to the first. */
  method WriteDigits(value: nat, buffer: array<char>, base: nat) returns (i: nat)
    requires 0 < value < 0x8000_0000_0000_0000 && 2 <= base <= 36 && buffer.Length >= 65
    modifies buffer
    ensures i <= 63 && buffer[..i] == Reversed(Text(value, base))
  {
    var rest: nat := value;
    i := 0;
    ghost var done := "";
    PartlyStarts(value, base);
    while rest > 0
      invariant i == |done| <= 63 && Partly(done, value, rest, base) && buffer[..i] == done
      decreases rest
    {
      var quotient, digit := Divide(rest, base);
      PartlyGrows(done, value, rest, quotient, digit, base);
      WriteDigit(buffer, i, digit);
      done := done + [LowerCase(digit)];
      rest := quotient;
      i := i + 1;
    }
    PartlyEnds(done, value, base);
  }

  method Divide(n: nat, base: nat) returns (quotient: nat, digit: nat)
    requires n > 0 && 2 <= base <= 36
    ensures quotient == n / base < n && digit == n % base < 36
  {
    QuotientIsLess(n, base);
    quotient, digit := n / base, n % base;
  }

  method WriteDigit(buffer: array<char>, i: nat, digit: nat)
    requires i < buffer.Length && digit < 36
    modifies buffer
    ensures buffer[..i + 1] == old(buffer[..i]) + [LowerCase(digit)]
  {
    if digit < 10 {
      buffer[i] := '0' + digit as char;
    } else {
      buffer[i] := 'a' + (digit - 10) as char;
    }
  }

  method IntToString(value: int, buffer: array<char>, base: nat) returns (length: nat)
    requires -0x8000_0000_0000_0000 <= value < 0x8000_0000_0000_0000 && 2 <= base <= 36 && buffer.Length >= 65
    modifies buffer
    ensures length < buffer.Length && buffer[..length] == Written(value, base) && buffer[length] == '\0'
  {
    if value == 0 {
      buffer[0] := '0';
      buffer[1] := '\0';
      return 1;
    }
    var sign, magnitude := 1, value;
    if value < 0 {
      sign := -1;
      magnitude := Negated(value);
    }
    var i := 0;
    if magnitude > 0 {
      i := WriteDigits(magnitude, buffer, base);
    }
    ghost var text := Magnitude(magnitude, base);
    assert buffer[..i] == Reversed(text);
    WrittenParts(value, base);
    if sign < 0 {
      buffer[i] := '-';
      i := i + 1;
    }
    buffer[i] := '\0';
    ghost var mark := if sign < 0 then "-" else "";
    assert buffer[..i] == Reversed(text) + mark;
    ReversedWithSign(text, mark);
    Reverse(buffer, i);
    return i;
  }
}
