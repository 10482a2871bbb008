/** Dates as text, "2010-05-16T13:28:17", printed into and parsed from a fixed buffer. */
module DateTimeText {
  import opened DateTime

  function Char(n: nat): char
    requires n < 10
  {
    '0' + n as char
  }

  /** Decimal digits without leading zeros, as itoa writes them before its terminating zero. */
  function Digits(n: nat): (r: seq<char>)
    ensures |r| >= 1
  {
    if n < 10 then [Char(n)] else Digits(n / 10) + [Char(n % 10)]
  }

  /** What itoa writes for a 16-bit int. */
  function Text(n: int): (r: seq<char>)
    ensures |r| >= 1
  {
    if n < 0 then ['-'] + Digits(-n) else Digits(n)
  }

  /** A 16-bit unsigned number as the int it is passed as. */
  function Signed(n: nat): int { if n < 32768 then n else n - 65536 }

  function Write(s: seq<char>, at: nat, t: seq<char>): (r: seq<char>)
    requires at + |t| <= |s|
    ensures |r| == |s|
  {
    s[..at] + t + s[at + |t|..]
  }

  lemma WriteMore(s: seq<char>, at: nat, t: seq<char>, k: nat)
    requires at + |t| <= |s| && k < |t|
    ensures Write(s, at, t[..k])[at + k := t[k]] == Write(s, at, t[..k + 1])
  {
  }

  // ---- printing ----

  function PrintNumber(s: seq<char>, at: nat, n: int): (r: seq<char>)
    requires at + |Text(n)| + 1 <= |s|
    ensures |r| == |s|
  {
    Write(s, at, Text(n) + ['\0'])
  }

  /** A number below ten is moved one place up and gets a leading zero. */
  function PrintTwo(s: seq<char>, at: nat, n: nat): (r: seq<char>)
    requires n < 100 && at + 3 <= |s|
    ensures |r| == |s|
  {
    TwoDigits(n);
    var t := PrintNumber(s, at, n);
    if n < 10 then t[at + 1 := t[at]][at := '0'] else t
  }

  lemma TwoDigits(n: nat)
    requires n < 100
    ensures Digits(n) == if n < 10 then [Char(n)] else [Char(n / 10), Char(n % 10)]
  {
  }

  lemma ThreeOf(n: nat)
    requires 100 <= n < 1000
    ensures Digits(n) == [Char(n / 100), Char(n / 10 % 10), Char(n % 10)]
  {
    TwoDigits(n / 10);
    DivTwice(n);
  }

  lemma FourOf(n: nat)
    requires 1000 <= n <= 9999
    ensures Digits(n) == [Char(n / 1000), Char(n / 100 % 10), Char(n / 10 % 10), Char(n % 10)]
  {
    ThreeOf(n / 10);
    DivTwice(n);
    assert Digits(n) == Digits(n / 10) + [Char(n % 10)];
    hide Digits, Char;
  }

  lemma YearDigits(n: nat)
    requires n <= 32768
    ensures |Digits(n)| <= 5
    ensures 1000 <= n <= 9999 ==>
              Digits(n) == [Char(n / 1000), Char(n / 100 % 10), Char(n / 10 % 10), Char(n % 10)]
    ensures n >= 10000 ==>
              var y := n / 10;
              && |Digits(n)| == 5
              && Digits(n)[..4] == [Char(y / 1000), Char(y / 100 % 10), Char(y / 10 % 10), Char(y % 10)]
    ensures 100 <= n < 1000 ==> Digits(n) == [Char(n / 100), Char(n / 10 % 10), Char(n % 10)]
  {
    if n < 100 {
      TwoDigits(n);
    } else if n < 1000 {
      ThreeOf(n);
    } else if n < 10000 {
      FourOf(n);
    } else {
      FourOf(n / 10);
      assert Digits(n) == Digits(n / 10) + [Char(n % 10)];
    }
    hide Digits, Char;
  }

  lemma YearText(year: nat)
    requires year < 65536
    ensures |Text(Signed(year))| <= 6
  {
    YearDigits(if year < 32768 then year else 65536 - year);
  }

  /** The buffer after printing a date over whatever it held. */
  function Printed(d: Date, s: seq<char>): (r: seq<char>)
    requires ValidFields(d) && d.year < 65536 && |s| >= ISO_LEN
    ensures |r| == |s|
  {
    YearText(d.year);
    var a := PrintNumber(s, 0, Signed(d.year))[4 := '-'];
    var b := PrintTwo(a, 5, d.month)[7 := '-'];
    var c := PrintTwo(b, 8, d.day)[10 := 'T'];
    var e := PrintTwo(c, 11, d.hours)[13 := ':'];
    var f := PrintTwo(e, 14, d.minutes)[16 := ':'];
    PrintTwo(f, 17, d.seconds)[19 := '\0']
  }

  lemma PrintTwoIs(s: seq<char>, at: nat, n: nat)
    requires n < 100 && at + 3 <= |s|
    ensures var r := PrintTwo(s, at, n);
            && r[at] == Char(n / 10) && r[at + 1] == Char(n % 10)
            && forall k :: 0 <= k < |s| && !(at <= k < at + 3) ==> r[k] == s[k]
  {
    TwoDigits(n);
  }

  // ---- parsing ----

  /** Digits are 8-bit differences from the character zero. */
  function Digit(c: char): nat { (c as int - 48) % 256 }

  lemma DigitOf(n: nat)
    requires n < 10
    ensures Digit(Char(n)) == n
  {
  }

  function Two(s: seq<char>, at: nat): nat
    requires at + 1 < |s|
  {
    (Digit(s[at]) * 10 + Digit(s[at + 1])) % 256
  }

  function Parsed(s: seq<char>): Date {
    if |s| < ISO_LEN then Date(EPOCH_YEAR, 1, 1, 0, 0, 0)
    else
      Date((Digit(s[0]) * 1000 + Digit(s[1]) * 100 + Digit(s[2]) * 10 + Digit(s[3])) % 65536,
           Two(s, 5), Two(s, 8), Two(s, 11), Two(s, 14), Two(s, 17))
  }

  function Number(s: seq<char>, at: nat): int
    requires at < |s|
  {
    s[at] as int - 48
  }

  /** Digits where the fields are. */
  predicate IsText(s: seq<char>)
    requires |s| >= 20
  {
    forall k :: 0 <= k < 19 && k !in {4, 7, 10, 13, 16} ==> '0' <= s[k] <= '9'
  }

  /** The date that such a text says. */
  function Read(s: seq<char>): Date
    requires |s| >= 20 && IsText(s)
  {
    Date(1000 * Number(s, 0) + 100 * Number(s, 1) + 10 * Number(s, 2) + Number(s, 3),
         10 * Number(s, 5) + Number(s, 6), 10 * Number(s, 8) + Number(s, 9), 10 * Number(s, 11) + Number(s, 12),
         10 * Number(s, 14) + Number(s, 15), 10 * Number(s, 17) + Number(s, 18))
  }

  lemma ParsedPlaces(s: seq<char>)
    requires |s| >= 20 && IsText(s)
    ensures Parsed(s) == Read(s)
  {
    TwoPlaces(s, 5);
    TwoPlaces(s, 8);
    TwoPlaces(s, 11);
    TwoPlaces(s, 14);
    TwoPlaces(s, 17);
    forall k | 0 <= k < 4
      ensures Digit(s[k]) == Number(s, k) <= 9
    {
    }
    hide Digit, IsText, Number, Two;
  }

  lemma TwoPlaces(s: seq<char>, at: nat)
    requires |s| >= 20 && at < 19 && '0' <= s[at] <= '9' && '0' <= s[at + 1] <= '9'
    ensures Two(s, at) == 10 * Number(s, at) + Number(s, at + 1)
  {
  }

  lemma TwoRoundTrip(s: seq<char>, at: nat, n: nat)
    requires n < 100 && at + 1 < |s| && s[at] == Char(n / 10) && s[at + 1] == Char(n % 10)
    ensures Two(s, at) == n
  {
    DigitOf(n / 10);
    DigitOf(n % 10);
  }

  /** What stands where: "YYYY-MM-DDTHH:MM:SS" and a terminating zero. */
  lemma PrintedPlaces(d: Date, s: seq<char>)
    requires ValidFields(d) && d.year < 65536 && |s| >= ISO_LEN
    ensures var p := Printed(d, s);
            && p[4] == '-' && p[7] == '-' && p[10] == 'T' && p[13] == ':' && p[16] == ':' && p[19] == '\0'
            && p[5] as int == 48 + d.month / 10 && p[6] as int == 48 + d.month % 10
            && p[8] as int == 48 + d.day / 10 && p[9] as int == 48 + d.day % 10
            && p[11] as int == 48 + d.hours / 10 && p[12] as int == 48 + d.hours % 10
            && p[14] as int == 48 + d.minutes / 10 && p[15] as int == 48 + d.minutes % 10
            && p[17] as int == 48 + d.seconds / 10 && p[18] as int == 48 + d.seconds % 10
            && (1000 <= d.year <= 9999 ==>
                  && p[0] as int == 48 + d.year / 1000 && p[1] as int == 48 + d.year / 100 % 10
                  && p[2] as int == 48 + d.year / 10 % 10 && p[3] as int == 48 + d.year % 10)
  {
    hide PrintTwo, PrintNumber;
    YearText(d.year);
    var y := PrintNumber(s, 0, Signed(d.year));
    YearPlaces(d.year, s);
    hide Digits, Text, Signed;
    var a := y[4 := '-'];
    var b := PrintTwo(a, 5, d.month)[7 := '-'];
    var c := PrintTwo(b, 8, d.day)[10 := 'T'];
    var e := PrintTwo(c, 11, d.hours)[13 := ':'];
    var f := PrintTwo(e, 14, d.minutes)[16 := ':'];
    PrintTwoIs(a, 5, d.month);
    PrintTwoIs(b, 8, d.day);
    PrintTwoIs(c, 11, d.hours);
    PrintTwoIs(e, 14, d.minutes);
    PrintTwoIs(f, 17, d.seconds);
  }

  lemma YearPlaces(year: nat, s: seq<char>)
    requires year < 65536 && |s| >= ISO_LEN && |Text(Signed(year))| <= 6
    ensures var p := PrintNumber(s, 0, Signed(year));
            1000 <= year <= 9999 ==>
              && p[0] as int == 48 + year / 1000 && p[1] as int == 48 + year / 100 % 10
              && p[2] as int == 48 + year / 10 % 10 && p[3] as int == 48 + year % 10
  {
    if 1000 <= year <= 9999 {
      YearDigits(year);
      var t := Digits(year) + ['\0'];
      hide Digits;
      assert PrintNumber(s, 0, Signed(year))[..5] == t;
    }
  }

  /** All fields but the year survive whatever the year is. */
  lemma FieldsRoundTrip(d: Date, s: seq<char>)
    requires ValidFields(d) && d.year < 65536 && |s| >= ISO_LEN
    ensures Parsed(Printed(d, s)) == d.(year := Parsed(Printed(d, s)).year)
    ensures |Text(Signed(d.year))| <= 6
    ensures forall k :: 0 <= k < 4 ==> Printed(d, s)[k] == PrintNumber(s, 0, Signed(d.year))[k]
  {
    hide PrintTwo, Digit, Two;
    YearText(d.year);
    var a := PrintNumber(s, 0, Signed(d.year))[4 := '-'];
    var b := PrintTwo(a, 5, d.month)[7 := '-'];
    var c := PrintTwo(b, 8, d.day)[10 := 'T'];
    var e := PrintTwo(c, 11, d.hours)[13 := ':'];
    var f := PrintTwo(e, 14, d.minutes)[16 := ':'];
    var g := PrintTwo(f, 17, d.seconds)[19 := '\0'];
    PrintTwoIs(a, 5, d.month);
    PrintTwoIs(b, 8, d.day);
    PrintTwoIs(c, 11, d.hours);
    PrintTwoIs(e, 14, d.minutes);
    PrintTwoIs(f, 17, d.seconds);
    assert g == Printed(d, s);
    TwoRoundTrip(g, 5, d.month);
    TwoRoundTrip(g, 8, d.day);
    TwoRoundTrip(g, 11, d.hours);
    TwoRoundTrip(g, 14, d.minutes);
    TwoRoundTrip(g, 17, d.seconds);
  }

  /** The one year that survives although it does not print as four digits: it prints as -8313, of which the parser
      reads "-831" as 253831, and that is 57223 in 16 bits. */
  const ODD_YEAR: nat := 57223

  /** Printing and parsing back gives the same date exactly when the year has four digits, or is the odd one. */
  lemma PrintParse(d: Date, s: seq<char>)
    requires ValidFields(d) && d.year < 65536 && |s| >= ISO_LEN
    requires forall k :: 0 <= k < |s| ==> s[k] as int < 256
    ensures Parsed(Printed(d, s)) == d <==> 1000 <= d.year <= 9999 || d.year == ODD_YEAR
  {
    hide PrintNumber, Digits, Two, Digit, Printed;
    FieldsRoundTrip(d, s);
    YearRoundTrip(d.year, s, Printed(d, s));
  }

  lemma YearRoundTrip(y: nat, s: seq<char>, p: seq<char>)
    requires y < 65536 && |s| >= ISO_LEN && |p| >= ISO_LEN && |Text(Signed(y))| <= 6
    requires forall k :: 0 <= k < 4 ==> p[k] == PrintNumber(s, 0, Signed(y))[k]
    ensures Parsed(p).year == y <==> 1000 <= y <= 9999 || y == ODD_YEAR
  {
    var n := PrintNumber(s, 0, Signed(y));
    var t := Text(Signed(y)) + ['\0'];
    assert forall k :: 0 <= k < |t| ==> n[k] == t[k];
    if y >= 32768 {
      assert t == ['-'] + (Digits(65536 - y) + ['\0']);
      NegativeYear(65536 - y, p);
    } else if y < 1000 {
      ShortYear(y, p);
    } else {
      YearDigits(y);
      hide Digits;
      FourDigits(p, if y < 10000 then y else y / 10);
    }
  }

  /** The number its first three digits spell. */
  function Lead(m: nat): (r: nat)
    requires m >= 100
    ensures 100 <= r < 1000
  {
    if m < 1000 then m else Lead(m / 10)
  }

  lemma {:induction false} LeadDigits(m: nat)
    requires m >= 100
    ensures |Digits(m)| >= 3
    ensures Digits(m)[..3] == [Char(Lead(m) / 100), Char(Lead(m) / 10 % 10), Char(Lead(m) % 10)]
  {
    if m < 1000 {
      YearDigits(m);
    } else {
      LeadDigits(m / 10);
      assert Digits(m) == Digits(m / 10) + [Char(m % 10)];
    }
  }

  lemma LeadAdds(m: nat)
    requires 100 <= m <= 32768
    ensures m + Lead(m) == 9144 <==> m == 65536 - ODD_YEAR
  {
    assert m >= 1000 ==> Lead(m) == Lead(m / 10);
    assert m >= 10000 ==> Lead(m / 10) == m / 10 / 10;
    assert 1000 <= m < 10000 ==> Lead(m / 10) == m / 10;
  }

  /** A number of one or two digits, its terminating zero behind it. */
  lemma FewDigits(m: nat, p: seq<char>, at: nat)
    requires m < 100 && at + 3 <= |p|
    requires var t := Digits(m) + ['\0']; forall k :: 0 <= k < |t| && k < 3 ==> p[at + k] == t[k]
    ensures m < 10 ==> Digit(p[at]) == m && Digit(p[at + 1]) == 208
    ensures m >= 10 ==> Digit(p[at]) == m / 10 && Digit(p[at + 1]) == m % 10 && Digit(p[at + 2]) == 208
  {
    var t := Digits(m) + ['\0'];
    TwoDigits(m);
    DigitOf(m / 10);
    DigitOf(m % 10);
    assert Digit('\0') == 208;
    assert p[at] == t[0] && p[at + 1] == t[1] && (m >= 10 ==> p[at + 2] == t[2]);
    hide Digit, Char, Digits;
  }

  lemma ManyDigits(m: nat, p: seq<char>)
    requires m >= 100 && |p| >= ISO_LEN
    requires var t := Digits(m) + ['\0']; forall k :: 0 <= k < |t| && k < 3 ==> p[1 + k] == t[k]
    ensures Digit(p[1]) * 100 + Digit(p[2]) * 10 + Digit(p[3]) == Lead(m)
  {
    hide Digit, Char, Digits, Lead;
    LeadDigits(m);
    var t, first, l := Digits(m) + ['\0'], Digits(m)[..3], Lead(m);
    assert p[1] == t[0] == first[0] && p[2] == t[1] == first[1] && p[3] == t[2] == first[2];
    DigitOf(l / 100);
    DigitOf(l / 10 % 10);
    DigitOf(l % 10);
    Decimal(l);
  }

  /** A year from 32768 on prints as a negative number. */
  lemma NegativeYear(m: nat, p: seq<char>)
    requires 1 <= m <= 32768 && |p| >= ISO_LEN && p[0] == '-'
    requires var t := Digits(m) + ['\0']; forall k :: 0 <= k < |t| && k < 3 ==> p[1 + k] == t[k]
    ensures Parsed(p).year == 65536 - m <==> 65536 - m == ODD_YEAR
  {
    assert Digit('-') == 253;
    if m >= 100 {
      ManyDigits(m, p);
      LeadAdds(m);
    } else {
      FewDigits(m, p, 1);
    }
    hide Digit, Digits, Two, Lead;
    MinusYear(Digit(p[1]), Digit(p[2]), Digit(p[3]));
  }

  /** The minus sign is read as 253; in 16 bits that leaves 56392 and the digits. */
  lemma MinusYear(a: nat, b: nat, c: nat)
    requires a * 100 + b * 10 + c < 65536 - 56392
    ensures (253 * 1000 + a * 100 + b * 10 + c) % 65536 == 56392 + a * 100 + b * 10 + c
  {
  }

  /** A year of fewer than four digits leaves its terminating zero where a digit should be. */
  lemma ShortYear(y: nat, p: seq<char>)
    requires y < 1000 && |p| >= ISO_LEN
    requires var t := Digits(y) + ['\0']; forall k :: 0 <= k < |t| && k < 4 ==> p[k] == t[k]
    ensures Parsed(p).year != y
  {
    if y < 100 {
      FewDigits(y, p, 0);
      hide Digits, Digit, Two;
      if y < 10 {
        TooLarge(y, 208, Digit(p[2]), Digit(p[3]), y);
      } else {
        TooLarge(y / 10, y % 10, 208, Digit(p[3]), y);
      }
    } else {
      ThreeDigits(y, p);
      hide Digits, Digit, Two;
      TooLarge(y / 100, y / 10 % 10, y % 10, 208, y);
    }
  }

  lemma ThreeDigits(y: nat, p: seq<char>)
    requires 100 <= y < 1000 && |p| >= ISO_LEN
    requires var t := Digits(y) + ['\0']; forall k :: 0 <= k < |t| && k < 4 ==> p[k] == t[k]
    ensures Digit(p[0]) == y / 100 && Digit(p[1]) == y / 10 % 10 && Digit(p[2]) == y % 10 && Digit(p[3]) == 208
  {
    YearDigits(y);
    var t := Digits(y) + ['\0'];
    DigitOf(y / 100);
    DigitOf(y / 10 % 10);
    DigitOf(y % 10);
    assert Digit('\0') == 208;
    assert p[0] == t[0] && p[1] == t[1] && p[2] == t[2] && p[3] == t[3];
    hide Digit, Char, Digits;
  }

  lemma TooLarge(a: nat, b: nat, c: nat, d: nat, y: nat)
    requires a < 10 && b < 256 && c < 256 && d < 256 && y < 1000 && (a > 0 || b == 208)
    ensures (a * 1000 + b * 100 + c * 10 + d) % 65536 != y
  {
  }

  lemma Decimal(y: nat)
    ensures y == y / 1000 * 1000 + y / 100 % 10 * 100 + y / 10 % 10 * 10 + y % 10
  {
    Tenth(y);
    Tenth(y / 10);
    Tenth(y / 100);
    DivTwice(y);
  }

  lemma Tenth(y: nat)
    ensures y == y / 10 * 10 + y % 10
  {
  }

  lemma DivTwice(y: nat)
    ensures y / 10 / 10 == y / 100 && y / 100 / 10 == y / 1000
  {
  }

  lemma FourDigits(p: seq<char>, y: nat)
    requires 1000 <= y <= 9999 && |p| >= ISO_LEN
    requires p[0] == Char(y / 1000) && p[1] == Char(y / 100 % 10) && p[2] == Char(y / 10 % 10) && p[3] == Char(y % 10)
    ensures Parsed(p).year == y
  {
    hide Digit, Char, Two;
    Decimal(y);
    DigitOf(y / 1000);
    DigitOf(y / 100 % 10);
    DigitOf(y / 10 % 10);
    DigitOf(y % 10);
  }

  // ---- the buffer ----

  method Itoa(n: int, iso: array<char>, at: nat)
    requires at + |Text(n)| + 1 <= iso.Length
    modifies iso
    ensures iso[..] == PrintNumber(old(iso[..]), at, n)
  {
    var t := Text(n) + ['\0'];
    ghost var was := iso[..];
    for k := 0 to |t|
      invariant iso[..] == Write(was, at, t[..k])
    {
      WriteMore(was, at, t, k);
      ghost var now := iso[..][at + k := t[k]];
      iso[at + k] := t[k];
      assert iso[..] == now;
    }
    assert t[..|t|] == t;
  }

  method PrintField(iso: array<char>, at: nat, n: nat)
    requires n < 100 && at + 3 <= iso.Length
    modifies iso
    ensures iso[..] == PrintTwo(old(iso[..]), at, n)
  {
    TwoDigits(n);
    Itoa(n, iso, at);
    if n < 10 {
      iso[at + 1] := iso[at];
      iso[at] := '0';
    }
  }

  method ToIso8601(d: Clock, iso: array<char>)
    requires iso.Length >= 20 && ValidFields(d.Value()) && d.year < 65536
    modifies iso
    ensures iso[..] == Printed(d.Value(), old(iso[..]))
  {
    hide PrintTwo, PrintNumber, Digits;
    YearText(d.year);
    Itoa(Signed(d.year), iso, 0);
    iso[4] := '-';
    PrintField(iso, 5, d.month);
    iso[7] := '-';
    PrintField(iso, 8, d.day);
    iso[10] := 'T';
    PrintField(iso, 11, d.hours);
    iso[13] := ':';
    PrintField(iso, 14, d.minutes);
    iso[16] := ':';
    PrintField(iso, 17, d.seconds);
    iso[19] := '\0';
  }

  method ParseIso8601(iso: seq<char>, d: Clock)
    modifies d
    ensures d.Value() == Parsed(iso)
    ensures |iso| < 20 ==> d.Value() == Date(1900, 1, 1, 0, 0, 0)
    ensures |iso| >= 20 && IsText(iso) ==> d.Value() == Read(iso)
  {
    hide Digit, Two;
    d.year, d.month, d.day, d.hours, d.minutes, d.seconds := EPOCH_YEAR, 1, 1, 0, 0, 0;
    if |iso| >= ISO_LEN {
      d.year := Digit(iso[0]) * 1000 % 65536;
      d.year := (d.year + Digit(iso[1]) * 100) % 65536;
      d.year := (d.year + Digit(iso[2]) * 10) % 65536;
      d.year := (d.year + Digit(iso[3])) % 65536;
      YearSum(Digit(iso[0]), Digit(iso[1]), Digit(iso[2]), Digit(iso[3]));
      d.month := ParseField(iso, 5);
      d.day := ParseField(iso, 8);
      d.hours := ParseField(iso, 11);
      d.minutes := ParseField(iso, 14);
      d.seconds := ParseField(iso, 17);
    }
    if |iso| >= 20 && IsText(iso) {
      ParsedPlaces(iso);
    }
  }

  method ParseField(iso: seq<char>, at: nat) returns (v: nat)
    requires at + 1 < |iso|
    ensures v == Two(iso, at)
  {
    hide Digit;
    var tens := Digit(iso[at]);
    v := tens * 10 % 256;
    v := (v + Digit(iso[at + 1])) % 256;
    ByteSum(tens * 10, Digit(iso[at + 1]));
  }

  lemma ByteSum(a: nat, b: nat)
    ensures (a % 256 + b) % 256 == (a + b) % 256
  {
  }

  lemma WordSum(a: nat, b: nat)
    ensures (a % 65536 + b) % 65536 == (a + b) % 65536
  {
  }

  lemma YearSum(a: nat, b: nat, c: nat, d: nat)
    ensures (((a * 1000 % 65536 + b * 100) % 65536 + c * 10) % 65536 + d) % 65536
            == (a * 1000 + b * 100 + c * 10 + d) % 65536
  {
    WordSum(a * 1000, b * 100);
    WordSum(a * 1000 + b * 100, c * 10);
    WordSum(a * 1000 + b * 100 + c * 10, d);
  }
}
