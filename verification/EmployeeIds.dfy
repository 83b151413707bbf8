/** The printed employee ID: `%s-%d-%04d` of company code, year and counter, and how to read it back. */
module EmployeeIds {
  import opened Prelude

  // ---- decimal numbers ----

  function Digit(d: nat): char
    requires d < 10
  {
    '0' + d as char
  }

  predicate IsDigit(c: char) {
    '0' <= c <= '9'
  }

  /** `%d` of a non-negative number. */
  function Dec(n: nat): string {
    if n < 10 then [Digit(n)] else Dec(n / 10) + [Digit(n % 10)]
  }

  predicate Digits(s: string) {
    forall i :: 0 <= i < |s| ==> IsDigit(s[i])
  }

  /** The number a string of digits denotes; leading zeros do not count. */
  function Value(s: string): nat
    requires Digits(s)
  {
    if s == [] then 0 else 10 * Value(s[..|s| - 1]) + (s[|s| - 1] - '0') as nat
  }

  function Zeros(k: nat): string {
    if k == 0 then [] else Zeros(k - 1) + ['0']
  }

  /** `%0wd`: zeros in front up to a width, never cutting. */
  function ZeroPad(n: nat, width: nat): string {
    var s := Dec(n);
    if |s| < width then Zeros(width - |s|) + s else s
  }

  /** PostgreSQL's LPAD(s, 4, '0'): zeros in front, and cut to the first four characters when longer. */
  function Lpad4(s: string): string {
    if |s| < 4 then Zeros(4 - |s|) + s else s[..4]
  }

  function Pow10(k: nat): nat {
    if k == 0 then 1 else 10 * Pow10(k - 1)
  }

  lemma {:induction false} DecDigits(n: nat)
    ensures Dec(n) != [] && Digits(Dec(n)) && Value(Dec(n)) == n
  {
    if n < 10 {
      assert Dec(n)[..0] == [];
    } else {
      DecDigits(n / 10);
      assert Dec(n)[..|Dec(n)| - 1] == Dec(n / 10);
    }
  }

  lemma {:induction false} DecLength(n: nat, k: nat)
    requires k >= 1
    ensures |Dec(n)| <= k <==> n < Pow10(k)
    decreases k
  {
    if k == 1 {
      DecDigits(n / 10);
    } else if n >= 10 {
      DecLength(n / 10, k - 1);
    } else {
      PowGrows(k);
    }
  }

  lemma {:induction false} PowGrows(k: nat)
    ensures Pow10(k) >= 1 && (k >= 1 ==> Pow10(k) >= 10)
  {
    if k > 0 {
      PowGrows(k - 1);
    }
  }

  lemma {:induction false} PaddedDigits(k: nat, s: string)
    requires Digits(s)
    ensures |Zeros(k)| == k && Digits(Zeros(k) + s) && Value(Zeros(k) + s) == Value(s)
  {
    if k > 0 {
      PaddedDigits(k - 1, ['0'] + s);
      assert Zeros(k) + s == Zeros(k - 1) + (['0'] + s);
      LeadingZero(s);
      PaddedDigits(k - 1, []);
    } else {
      assert Zeros(0) + s == s;
    }
  }

  lemma {:induction false} LeadingZero(s: string)
    requires Digits(s)
    ensures Digits(['0'] + s) && Value(['0'] + s) == Value(s)
  {
    if s == [] {
      assert (['0'] + s)[..0] == [];
    } else {
      LeadingZero(s[..|s| - 1]);
      assert (['0'] + s)[..|s|] == ['0'] + s[..|s| - 1];
    }
  }

  /** Padding keeps the value, at any width. */
  lemma ZeroPadValue(n: nat, width: nat)
    ensures var s := ZeroPad(n, width);
            s != [] && Digits(s) && Value(s) == n && |s| == if |Dec(n)| < width then width else |Dec(n)|
  {
    var s := Dec(n);
    DecDigits(n);
    if |s| < width {
      PaddedDigits(width - |s|, s);
      PaddedDigits(width - |s|, []);
      assert ZeroPad(n, width) == Zeros(width - |s|) + s;
    }
  }

  // ---- employee IDs ----

  function EmployeeId(code: string, year: nat, counter: nat): string {
    code + "-" + Dec(year) + "-" + ZeroPad(counter, 4)
  }

  /** The index of the last dash, or the length of the string if there is none. */
  function LastDash(s: string): nat {
    if s == [] then 0
    else if s[|s| - 1] == '-' then |s| - 1
    else
      var i := LastDash(s[..|s| - 1]);
      if i == |s| - 1 then |s| else i
  }

  /** Splits off the digits after the last dash. */
  function SplitNumber(s: string): Option<(string, nat)> {
    var i := LastDash(s);
    if i < |s| && i + 1 < |s| && Digits(s[i + 1..]) then Some((s[..i], Value(s[i + 1..]))) else None
  }

  /** Reads company code, year and counter from the right: the code may hold dashes and digits itself. */
  function Decode(s: string): Option<(string, nat, nat)> {
    match SplitNumber(s)
    case None => None
    case Some((rest, counter)) =>
      match SplitNumber(rest)
      case None => None
      case Some((code, year)) => Some((code, year, counter))
  }

  lemma {:induction false} LastDashBeforeDigits(head: string, digits: string)
    requires Digits(digits)
    ensures LastDash(head + "-" + digits) == |head|
  {
    var s := head + "-" + digits;
    if digits != [] {
      LastDashBeforeDigits(head, digits[..|digits| - 1]);
      assert s[..|s| - 1] == head + "-" + digits[..|digits| - 1];
      assert s[|s| - 1] == digits[|digits| - 1];
    }
  }

  lemma SplitPrinted(head: string, digits: string)
    requires Digits(digits) && digits != []
    ensures SplitNumber(head + "-" + digits) == Some((head, Value(digits)))
  {
    LastDashBeforeDigits(head, digits);
    var s := head + "-" + digits;
    assert s[..|head|] == head;
    assert s[|head| + 1..] == digits;
  }

  /** Round trip, for every company code, year and counter, above 9999 too. */
  lemma RoundTrip(code: string, year: nat, counter: nat)
    ensures Decode(EmployeeId(code, year, counter)) == Some((code, year, counter))
  {
    DecDigits(year);
    ZeroPadValue(counter, 4);
    SplitPrinted(code + "-" + Dec(year), ZeroPad(counter, 4));
    SplitPrinted(code, Dec(year));
  }

  /** Distinct (code, year, counter) never print alike. */
  lemma IdsAreDistinct(code: string, year: nat, counter: nat, code': string, year': nat, counter': nat)
    requires EmployeeId(code, year, counter) == EmployeeId(code', year', counter')
    ensures code == code' && year == year' && counter == counter'
  {
    RoundTrip(code, year, counter);
    RoundTrip(code', year', counter');
  }

  /** The text of a number: its digits without a leading zero, or at least so many with zeros in front. */
  ghost predicate Prints(s: string, n: nat, width: nat) {
    Digits(s) && Value(s) == n && |s| >= width && (|s| > width ==> s[0] != '0')
  }

  lemma {:induction false} DecLeads(n: nat)
    ensures Dec(n) != [] && (n > 0 ==> Dec(n)[0] != '0')
  {
    if n >= 10 {
      DecLeads(n / 10);
    }
  }

  /** `%s-%d-%04d`: the code, the year, and the counter in four digits or more, with no other zeros in front. */
  lemma IdFormat(code: string, year: nat, counter: nat)
    requires year > 0 && counter > 0
    ensures exists y, c :: EmployeeId(code, year, counter) == code + "-" + y + "-" + c
                           && Prints(y, year, 0) && Prints(c, counter, 4)
  {
    DecDigits(year);
    DecLeads(year);
    DecLeads(counter);
    ZeroPadValue(counter, 4);
    assert Prints(Dec(year), year, 0) && Prints(ZeroPad(counter, 4), counter, 4);
  }

  const MAX_INT32: nat := 0x7FFF_FFFF

  /** The ID always fits its VARCHAR(100) column: codes are VARCHAR(50), year and counter are 32-bit columns. */
  lemma IdFitsColumn(code: string, year: nat, counter: nat)
    requires |code| <= 50 && year <= MAX_INT32 && counter <= MAX_INT32
    ensures |EmployeeId(code, year, counter)| <= 72
  {
    assert Pow10(5) == 100000;
    assert Pow10(10) == 10000000000;
    DecLength(year, 10);
    DecLength(counter, 10);
    ZeroPadValue(counter, 4);
  }

  // ---- the seed migration's rendering ----

  function SeededId(code: string, year: nat, counter: nat): string {
    code + "-" + Dec(year) + "-" + Lpad4(Dec(counter))
  }

  /** The migration prints like the application exactly up to 9999. */
  lemma SeededAgrees(code: string, year: nat, counter: nat)
    ensures SeededId(code, year, counter) == EmployeeId(code, year, counter) <==> counter <= 9999
  {
    assert Pow10(4) == 10000;
    DecLength(counter, 4);
    ZeroPadValue(counter, 4);
    if counter > 9999 {
      assert |SeededId(code, year, counter)| < |EmployeeId(code, year, counter)|;
    } else if |Dec(counter)| == 4 {
      assert Dec(counter)[..4] == Dec(counter);
    }
  }

  /** Past 9999 the cut number is an ID the application issued before. */
  lemma {:induction false} SeededCollides(code: string, year: nat, counter: nat) returns (earlier: nat)
    requires counter > 9999
    ensures 1000 <= earlier <= 9999 && SeededId(code, year, counter) == EmployeeId(code, year, earlier)
  {
    assert Pow10(3) == 1000 && Pow10(4) == 10000;
    DecLength(counter / 10, 3);
    DecLength(counter / 10, 4);
    if counter / 10 > 9999 {
      earlier := SeededCollides(code, year, counter / 10);
      assert Dec(counter)[..4] == Dec(counter / 10)[..4];
    } else {
      earlier := counter / 10;
      assert Dec(counter)[..4] == Dec(counter / 10);
    }
  }
}
