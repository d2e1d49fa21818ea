/** Public task codes such as `T-0042`: printing and reading them back. */
module TaskCodes {
  import opened Prelude
  import opened Text

  const PUBLIC_TASK_CODE_WIDTH: nat := 4
  const PREFIX: string := "T-"
  const PLACEHOLDER: string := "T-NEW"

  const MAX_I64: int := 0x7FFF_FFFF_FFFF_FFFF

  type I64 = n: int | -MAX_I64 - 1 <= n <= MAX_I64

  // ---- Decimal notation ----

  function Digits(n: nat): (s: string)
    ensures s != []
  {
    if n < 10 then [DigitOf(n)] else Digits(n / 10) + [DigitOf(n % 10)]
  }

  function DigitOf(d: nat): char
    requires d < 10
  {
    '0' + d as char
  }

  predicate IsDigit(c: char) {
    '0' <= c <= '9'
  }

  predicate AreDigits(s: string) {
    forall i :: 0 <= i < |s| ==> IsDigit(s[i])
  }

  function ValueOf(s: string): nat
    requires AreDigits(s)
  {
    if s == [] then 0 else 10 * ValueOf(s[..|s| - 1]) + (s[|s| - 1] - '0') as nat
  }

  function Zeros(count: nat): string {
    seq(count, _ => '0')
  }

  // ---- Printing ----

  function Magnitude(n: int): nat {
    if n < 0 then -n else n
  }

  /** At least `width` characters, the sign first, zeros between it and the digits. */
  function Padded(n: I64, width: nat): string {
    var sign := if n < 0 then "-" else "";
    var digits := Digits(Magnitude(n));
    var used := |sign| + |digits|;
    sign + Zeros(if used < width then width - used else 0) + digits
  }

  function FormatPublicTaskCode(id: I64): string {
    PREFIX + Padded(id, PUBLIC_TASK_CODE_WIDTH)
  }

  function FormatOrPlaceholder(id: Option<I64>): string {
    match id
    case Some(value) => if value > 0 then FormatPublicTaskCode(value) else PLACEHOLDER
    case None => PLACEHOLDER
  }

  // ---- Reading ----

  function UpperAscii(s: string): string {
    seq(|s|, i requires 0 <= i < |s| => if 'a' <= s[i] <= 'z' then s[i] - 'a' + 'A' else s[i])
  }

  /** A decimal `i64`: one optional sign, at least one digit, and no overflow. */
  function ParseI64(s: string): Option<I64> {
    if s == [] then None
    else
      var digits := if s[0] == '-' || s[0] == '+' then s[1..] else s;
      if digits == [] || !AreDigits(digits) then None
      else
        var magnitude: int := ValueOf(digits);
        var value := if s[0] == '-' then -magnitude else magnitude;
        if -MAX_I64 - 1 <= value <= MAX_I64 then Some(value) else None
  }

  function ParsePublicTaskCode(value: string): Option<I64> {
    var normalized := UpperAscii(Trim(value));
    if |normalized| < 2 || normalized[..2] != PREFIX then None
    else
      var numeric := normalized[2..];
      if numeric == [] then None
      else match ParseI64(numeric)
        case Some(id) => if id > 0 then Some(id) else None
        case None => None
  }

  // ---- Round trips ----

  lemma {:induction false} ValueOfDigits(n: nat)
    ensures AreDigits(Digits(n)) && ValueOf(Digits(n)) == n
    ensures n > 0 ==> Digits(n)[0] != '0'
  {
    if n >= 10 {
      ValueOfDigits(n / 10);
      assert Digits(n)[..|Digits(n)| - 1] == Digits(n / 10);
    }
  }

  lemma {:induction false} ZerosAddNothing(count: nat, s: string)
    requires AreDigits(s)
    ensures AreDigits(Zeros(count) + s) && ValueOf(Zeros(count) + s) == ValueOf(s)
  {
    if s != [] {
      var front := s[..|s| - 1];
      ZerosAddNothing(count, front);
      assert (Zeros(count) + s)[..count + |s| - 1] == Zeros(count) + front;
    } else if count > 0 {
      ZerosAddNothing(count - 1, s);
      assert (Zeros(count) + s)[..count - 1] == Zeros(count - 1) + s;
    }
  }

  /** Digits with a given value are the printed digits after some zeros. */
  lemma {:induction false} DigitsOfValue(s: string) returns (zeros: nat)
    requires AreDigits(s) && ValueOf(s) > 0
    ensures s == Zeros(zeros) + Digits(ValueOf(s))
  {
    var front, d := s[..|s| - 1], (s[|s| - 1] - '0') as nat;
    assert s == front + [DigitOf(d)];
    if ValueOf(front) > 0 {
      zeros := DigitsOfValue(front);
      assert ValueOf(s) / 10 == ValueOf(front) && ValueOf(s) % 10 == d;
    } else {
      NothingButZeros(front);
      zeros := |front|;
    }
  }

  lemma {:induction false} NothingButZeros(s: string)
    requires AreDigits(s) && ValueOf(s) == 0
    ensures s == Zeros(|s|)
  {
    if s != [] {
      NothingButZeros(s[..|s| - 1]);
      assert s == s[..|s| - 1] + ['0'];
    }
  }

  lemma PrintedNumberIsRead(id: I64, width: nat)
    ensures ParseI64(Padded(id, width)) == Some(id)
    ensures |Padded(id, width)| >= width && (|Padded(id, width)| > width ==> Padded(id, width) == Padded(id, 0))
    ensures Padded(id, width) != [] && forall c :: c in Padded(id, width) ==> c == '-' || IsDigit(c)
  {
    var digits := Digits(Magnitude(id));
    ValueOfDigits(Magnitude(id));
    hide Digits, ValueOf;
    var used := |digits| + if id < 0 then 1 else 0;
    var zeros := if used < width then width - used else 0;
    ZerosAddNothing(zeros, digits);
    var padded := Zeros(zeros) + digits;
    assert padded != [] && IsDigit(padded[0]);
    assert Zeros(0) == [];
    if id < 0 {
      assert Padded(id, width) == "-" + padded;
      assert ("-" + padded)[1..] == padded;
    } else {
      assert Padded(id, width) == padded;
    }
  }

  /** Codes of positive ids are read back as the id; the other printed codes, and the placeholder, are refused. */
  lemma FormattedIsParsed(id: I64)
    ensures ParsePublicTaskCode(FormatPublicTaskCode(id)) == if id > 0 then Some(id) else None
    ensures |FormatPublicTaskCode(id)| >= 6
    ensures |FormatPublicTaskCode(id)| > 6 ==> FormatPublicTaskCode(id) == "T-" + Padded(id, 0)
  {
    var printed := Padded(id, PUBLIC_TASK_CODE_WIDTH);
    var code := FormatPublicTaskCode(id);
    hide Padded, ParseI64, Trim;
    PrintedNumberIsRead(id, PUBLIC_TASK_CODE_WIDTH);
    assert code[|code| - 1] in printed;
    TrimmedStays(code);
    forall i | 0 <= i < |code| ensures UpperAscii(code)[i] == code[i] {
      assert i >= 2 ==> code[i] == printed[i - 2] && printed[i - 2] in printed;
    }
    assert UpperAscii(code) == code;
    assert code[2..] == printed;
  }

  lemma PlaceholderRoundTrip(id: Option<I64>)
    ensures ParsePublicTaskCode(FormatOrPlaceholder(id)) == if id.Some? && id.value > 0 then id else None
  {
    hide ParsePublicTaskCode;
    if id.Some? && id.value > 0 {
      FormattedIsParsed(id.value);
    } else {
      PlaceholderIsRefused();
    }
  }

  lemma PlaceholderIsRefused()
    ensures ParsePublicTaskCode(PLACEHOLDER).None?
  {
    hide Trim, ValueOf;
    assert !IsWhitespace('T') && !IsWhitespace('W');
    TrimmedStays(PLACEHOLDER);
    var numeric := UpperAscii(PLACEHOLDER)[2..];
    assert numeric == "NEW";
    assert !IsDigit(numeric[0]);
  }

  /**
   * A text is read as a positive id exactly when, trimmed and in upper case, it is the prefix,
   * perhaps a plus sign, any number of zeros, and the id's own digits.
   */
  lemma ParsedExactlyWhen(value: string, id: I64)
    ensures ParsePublicTaskCode(value) == Some(id)
       <==> id > 0 && exists plus: bool, zeros: nat :: UpperAscii(Trim(value)) == Spelled(plus, zeros, id)
  {
    hide Digits, ValueOf, Zeros, Trim;
    if id > 0 {
      if plus: bool, zeros: nat :| UpperAscii(Trim(value)) == Spelled(plus, zeros, id) {
        SpellingIsRead(plus, zeros, id);
      }
    }
    if ParsePublicTaskCode(value) == Some(id) {
      var normalized := UpperAscii(Trim(value));
      var plus, zeros := ReadIsSpelled(normalized[2..], id);
      assert normalized == PREFIX + normalized[2..];
      assert normalized == Spelled(plus, zeros, id);
    }
  }

  lemma SpellingIsItself(plus: bool, zeros: nat, id: I64)
    requires id > 0
    ensures UpperAscii(Trim(Spelled(plus, zeros, id))) == Spelled(plus, zeros, id)
  {
    hide Trim, ValueOf, Digits, IsWhitespace;
    var code := Spelled(plus, zeros, id);
    SpellingIsPlain(plus, zeros, id);
    assert IsPlain(code[0]) && IsPlain(code[|code| - 1]);
    TrimmedStays(code);
    assert UpperAscii(code) == code;
  }

  /** Neither whitespace nor a small letter. */
  predicate IsPlain(c: char) {
    !IsWhitespace(c) && !('a' <= c <= 'z')
  }

  lemma DigitsArePlain(s: string)
    requires AreDigits(s)
    ensures forall i :: 0 <= i < |s| ==> IsPlain(s[i])
  {
    hide ValueOf;
    forall i | 0 <= i < |s| ensures IsPlain(s[i]) {
      assert IsDigit(s[i]);
    }
  }

  lemma SpellingIsPlain(plus: bool, zeros: nat, id: I64)
    requires id > 0
    ensures var code := Spelled(plus, zeros, id); |code| >= 2 && forall i :: 0 <= i < |code| ==> IsPlain(code[i])
  {
    ValueOfDigits(id);
    ZerosAddNothing(zeros, Digits(id));
    DigitsArePlain(Zeros(zeros) + Digits(id));
    assert forall i :: 0 <= i < |PREFIX| ==> IsPlain(PREFIX[i]);
    assert IsPlain('+');
    hide IsPlain, ValueOf, Digits, AreDigits, Zeros;
    var signed := Signed(plus, Zeros(zeros) + Digits(id));
    assert forall i :: 0 <= i < |signed| ==> IsPlain(signed[i]);
  }

  /** A small letter and whitespace around the code make no difference. */
  lemma SpellingIsFree(before: string, rest: string, after: string)
    requires rest != [] && !IsWhitespace(rest[|rest| - 1])
    requires forall i :: 0 <= i < |before| ==> IsWhitespace(before[i])
    requires forall i :: 0 <= i < |after| ==> IsWhitespace(after[i])
    ensures ParsePublicTaskCode(before + ("t" + rest) + after) == ParsePublicTaskCode("T" + rest)
  {
    hide Trim, ParseI64;
    var small, great := "t" + rest, "T" + rest;
    assert !IsWhitespace('t') && !IsWhitespace('T');
    hide IsWhitespace;
    TrimIgnoresSurroundings(before, small, after);
    TrimmedStays(great);
    assert UpperAscii(small) == UpperAscii(great);
  }

  /** The usual look of a code. */
  lemma FourDigits()
    ensures FormatPublicTaskCode(42) == "T-0042"
  {
    assert Digits(42) == Digits(4) + ['2'] == "42";
    assert Zeros(2) == "00";
  }

  /** A plus sign is let through: `T-+5` is read as 5. */
  lemma PlusIsRead()
    ensures Spelled(true, 0, 5) == "T-+5"
    ensures ParsePublicTaskCode("T-+5") == Some(5)
  {
    hide Trim, ParsePublicTaskCode;
    assert Digits(5) == "5";
    SpellingIsItself(true, 0, 5);
    ParsedExactlyWhen(Spelled(true, 0, 5), 5);
  }

  lemma ReadIsSpelled(numeric: string, id: I64) returns (plus: bool, zeros: nat)
    requires ParseI64(numeric) == Some(id) && id > 0
    ensures PREFIX + numeric == Spelled(plus, zeros, id)
  {
    hide Digits, ValueOf, Zeros, AreDigits;
    plus := numeric[0] == '+';
    var digits := if plus then numeric[1..] else numeric;
    assert numeric == Signed(plus, digits);
    hide ParseI64, Signed;
    zeros := DigitsOfValue(digits);
  }

  lemma SignedIsRead(plus: bool, digits: string)
    requires AreDigits(digits) && digits != [] && ValueOf(digits) <= MAX_I64
    ensures ParseI64(Signed(plus, digits)) == Some(ValueOf(digits))
  {
    hide ValueOf;
    if plus {
      assert Signed(plus, digits)[1..] == digits;
    } else {
      assert IsDigit(digits[0]);
      assert Signed(plus, digits) == digits;
    }
  }

  function Signed(plus: bool, digits: string): string {
    (if plus then "+" else "") + digits
  }

  function Spelled(plus: bool, zeros: nat, id: I64): string
    requires id > 0
  {
    PREFIX + Signed(plus, Zeros(zeros) + Digits(id))
  }

  lemma SpellingIsRead(plus: bool, zeros: nat, id: I64)
    requires id > 0
    ensures Spelled(plus, zeros, id)[..2] == PREFIX && ParseI64(Spelled(plus, zeros, id)[2..]) == Some(id)
  {
    hide Digits, ValueOf, ParseI64, Zeros, Signed, AreDigits;
    var digits := Zeros(zeros) + Digits(id);
    ValueOfDigits(id);
    ZerosAddNothing(zeros, Digits(id));
    SignedIsRead(plus, digits);
    assert Spelled(plus, zeros, id)[2..] == Signed(plus, digits);
  }
}
