/**
 Decimal integers as label values.

 `Atoi` follows Go's `strconv.Atoi` on a 64-bit machine: an optional sign, at least one decimal
 digit, leading zeros allowed, and a value inside the machine range. Every machine integer
 therefore has infinitely many spellings, which is what the co-finite requirements rest on.
 */
module Numerals {
  import opened Wrappers

  const MAX_INT: int := 0x7FFF_FFFF_FFFF_FFFF
  const MIN_INT: int := -0x8000_0000_0000_0000

  predicate InRange(n: int) {
    MIN_INT <= n <= MAX_INT
  }

  predicate IsDigits(s: string) {
    forall i | 0 <= i < |s| :: '0' <= s[i] <= '9'
  }

  /** The number a (possibly empty) string of digits denotes. */
  function Magnitude(s: string): (n: nat)
    requires IsDigits(s)
  {
    if s == "" then 0
    else 10 * Magnitude(s[..|s| - 1]) + (s[|s| - 1] as int - '0' as int)
  }

  function Unsigned(s: string): string {
    if s != "" && (s[0] == '+' || s[0] == '-') then s[1..] else s
  }

  predicate IsNumeral(s: string) {
    Unsigned(s) != "" && IsDigits(Unsigned(s))
  }

  function Atoi(s: string): (r: Option<int>)
    ensures r.Some? ==> InRange(r.value)
  {
    if !IsNumeral(s) then None
    else
      var n: int := Magnitude(Unsigned(s));
      var v := if s[0] == '-' then -n else n;
      if InRange(v) then Some(v) else None
  }

  /** A numeral is at least one digit, after a sign or none. */
  ghost predicate Reads(s: string, digits: string, n: int) {
    && digits != "" && IsDigits(digits)
    && var m: int := Magnitude(digits);
       (n == m && (s == digits || s == "+" + digits)) || (n == -m && s == "-" + digits)
  }

  /** What is read, and as what: numerals in range. */
  lemma AtoiIff(s: string, n: int)
    ensures Atoi(s) == Some(n) <==> InRange(n) && exists digits :: Reads(s, digits, n)
  {
    if Atoi(s) == Some(n) {
      assert s == Unsigned(s) || s == [s[0]] + Unsigned(s);
      assert Reads(s, Unsigned(s), n);
    }
    forall digits | InRange(n) && Reads(s, digits, n) ensures Atoi(s) == Some(n) {
      assert ("+" + digits)[1..] == digits && ("-" + digits)[1..] == digits;
      assert Unsigned(s) == digits;
    }
  }

  /** The digits of a natural number, without leading zeros; `strconv.FormatInt` in base 10. */
  function Digits(n: nat): string {
    var last := [(n % 10) as char + '0'];
    if n < 10 then last else Digits(n / 10) + last
  }

  lemma {:induction false} DigitsDenote(n: nat)
    ensures Digits(n) != "" && IsDigits(Digits(n))
    ensures Magnitude(Digits(n)) == n
  {
    var s := Digits(n);
    if n < 10 {
      assert s[..0] == "";
    } else {
      DigitsDenote(n / 10);
      assert s[..|s| - 1] == Digits(n / 10);
    }
  }

  function Zeros(k: nat): (s: string)
    ensures |s| == k && IsDigits(s)
  {
    seq(k, _ => '0')
  }

  /** The spelling of `n` that carries `k` leading zeros. */
  function Spelling(n: int, k: nat): string {
    if n < 0 then "-" + (Zeros(k) + Digits(-n)) else Zeros(k) + Digits(n)
  }

  function FormatInt(n: int): string {
    Spelling(n, 0)
  }

  lemma {:induction false} LeadingZeros(k: nat, s: string)
    requires IsDigits(s)
    ensures IsDigits(Zeros(k) + s)
    ensures Magnitude(Zeros(k) + s) == Magnitude(s)
    decreases |s|, k
  {
    var t := Zeros(k) + s;
    if s == "" {
      if k > 0 {
        assert t[..|t| - 1] == Zeros(k - 1) + "";
        LeadingZeros(k - 1, "");
      }
    } else {
      assert t[..|t| - 1] == Zeros(k) + s[..|s| - 1];
      LeadingZeros(k, s[..|s| - 1]);
    }
  }

  lemma UnsignedReadsBack(s: string)
    requires s != "" && IsDigits(s)
    ensures IsNumeral(s) && Unsigned(s) == s && s[0] != '-'
    ensures IsNumeral("-" + s) && Unsigned("-" + s) == s
    ensures IsNumeral("+" + s) && Unsigned("+" + s) == s
  {
    assert '0' <= s[0] <= '9';
    assert ("-" + s)[1..] == s && ("+" + s)[1..] == s;
  }

  /**
   Every spelling of a machine integer is read back as that integer, also with a plus sign, and zero
   with a minus sign.
   */
  lemma SpellingReadsBack(n: int, k: nat)
    requires InRange(n)
    ensures Atoi(Spelling(n, k)) == Some(n) && |Spelling(n, k)| > k
    ensures n >= 0 ==> Atoi("+" + Spelling(n, k)) == Some(n)
    ensures n == 0 ==> Atoi("-" + Spelling(n, k)) == Some(n)
  {
    DigitsDenote(if n < 0 then -n else n);
    var digits := Digits(if n < 0 then -n else n);
    var body := Zeros(k) + digits;
    LeadingZeros(k, digits);
    UnsignedReadsBack(body);
    assert Spelling(n, k) == if n < 0 then "-" + body else body;
  }

  /** A finite set of strings has a longest member. */
  lemma LengthBound(excluded: set<string>) returns (m: nat)
    ensures forall s | s in excluded :: |s| <= m
  {
    if excluded == {} {
      m := 0;
    } else {
      var s :| s in excluded;
      m := LengthBound(excluded - {s});
      m := if m < |s| then |s| else m;
    }
  }

  /** No finite set of strings holds every spelling of an integer. */
  lemma FreshSpelling(n: int, excluded: set<string>) returns (s: string)
    requires InRange(n)
    ensures Atoi(s) == Some(n) && s !in excluded
  {
    var m := LengthBound(excluded);
    s := Spelling(n, m);
    SpellingReadsBack(n, m);
  }

  /** No finite set of strings holds every string that is not an integer. */
  lemma FreshWord(excluded: set<string>) returns (s: string)
    ensures Atoi(s) == None && s !in excluded
  {
    var m := LengthBound(excluded);
    s := seq(m + 1, _ => 'x');
    assert Unsigned(s)[0] == 'x';
  }
}
