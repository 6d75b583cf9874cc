/** The string searches and the decimal integers of the Java library that the exception printer relies on. */
module JavaText {
  import opened Results

  const INT_MAX: int := 0x7fff_ffff
  const INT_MIN: int := -0x8000_0000

  type Int32 = n: int | INT_MIN <= n <= INT_MAX

  // ----- indexOf and lastIndexOf

  function IndexOf(s: string, c: char): (i: int)
    ensures -1 <= i < |s|
    ensures i == -1 <==> c !in s
    ensures i >= 0 ==> s[i] == c && forall k | 0 <= k < i :: s[k] != c
  {
    if s == "" then -1
    else if s[0] == c then 0
    else
      var i := IndexOf(s[1..], c);
      if i == -1 then -1 else i + 1
  }

  function LastIndexOf(s: string, c: char): (i: int)
    ensures -1 <= i < |s|
    ensures i == -1 <==> c !in s
    ensures i >= 0 ==> s[i] == c && forall k | i < k < |s| :: s[k] != c
  {
    if s == "" then -1
    else if s[|s| - 1] == c then |s| - 1
    else LastIndexOf(s[..|s| - 1], c)
  }

  /** A first occurrence splits the text at most as late as any separator. */
  lemma FirstSeparator(a: string, b: string, c: char)
    ensures c !in a ==> IndexOf(a + [c] + b, c) == |a|
    ensures c in a ==> 0 <= IndexOf(a + [c] + b, c) < |a|
  {
    var s := a + [c] + b;
    assert s[|a|] == c;
    if c in a {
      var k :| 0 <= k < |a| && a[k] == c;
      assert s[k] == c;
    }
  }

  /** A last occurrence splits the text at least as late as any separator. */
  lemma {:induction false} LastSeparator(a: string, b: string, c: char)
    ensures c !in b ==> LastIndexOf(a + [c] + b, c) == |a|
    ensures c in b ==> LastIndexOf(a + [c] + b, c) > |a|
    decreases |b|
  {
    var s := a + [c] + b;
    if b != "" {
      var n := |b| - 1;
      assert s[..|s| - 1] == a + [c] + b[..n];
      LastSeparator(a, b[..n], c);
      assert b == b[..n] + [b[n]];
    }
  }

  // ----- Lines of four fields

  datatype Fields = Fields(first: string, middle: string, third: string, last: string)

  function JoinFields(f: Fields): string {
    f.first + ":" + f.middle + ":" + f.third + ":" + f.last
  }

  /** The positions of the first and of the last two colons. */
  datatype Cuts = Cuts(i1: nat, i2: nat, i3: nat)

  /** None where a substring between them would be out of bounds. */
  function CutsOf(line: string): (cuts: Option<Cuts>)
    ensures cuts.Some? ==> cuts.value.i1 < cuts.value.i2 < cuts.value.i3 < |line|
  {
    var i1, i3 := IndexOf(line, ':'), LastIndexOf(line, ':');
    if i3 < 0 then None
    else
      var i2 := LastIndexOf(line[..i3], ':');
      if i2 < i1 + 1 then None else Some(Cuts(i1, i2, i3))
  }

  function FieldsAt(line: string, cuts: Cuts): Fields
    requires cuts.i1 < cuts.i2 < cuts.i3 < |line|
  {
    Fields(line[..cuts.i1], line[cuts.i1 + 1..cuts.i2], line[cuts.i2 + 1..cuts.i3], line[cuts.i3 + 1..])
  }

  function SplitFields(line: string): Option<Fields> {
    var cuts := CutsOf(line);
    if cuts.None? then None else Some(FieldsAt(line, cuts.value))
  }

  function UpToMiddle(f: Fields): string {
    f.first + ":" + f.middle
  }

  function UpToThird(f: Fields): string {
    UpToMiddle(f) + ":" + f.third
  }

  function AfterFirst(f: Fields): string {
    f.middle + ":" + f.third + ":" + f.last
  }

  lemma JoinedAtEnds(f: Fields)
    ensures JoinFields(f) == UpToThird(f) + [':'] + f.last
    ensures JoinFields(f) == f.first + [':'] + AfterFirst(f)
    ensures UpToThird(f) == UpToMiddle(f) + [':'] + f.third
    ensures JoinFields(f)[..|UpToThird(f)|] == UpToThird(f)
  {
  }

  lemma CutsJoined(f: Fields)
    requires ':' !in f.last
    ensures var cuts := CutsOf(JoinFields(f));
            && cuts.Some? && cuts.value.i3 == ThirdOf(f)
            && (if ':' in f.first then cuts.value.i1 < |f.first| else cuts.value.i1 == |f.first|)
            && (if ':' in f.third then cuts.value.i2 > SecondOf(f) else cuts.value.i2 == SecondOf(f))
  {
    JoinedAtEnds(f);
    LastSeparator(UpToThird(f), f.last, ':');
    LastSeparator(UpToMiddle(f), f.third, ':');
    FirstSeparator(f.first, AfterFirst(f), ':');
  }

  /** Where the second and the last separator of a joined line are. */
  function SecondOf(f: Fields): nat {
    |f.first| + 1 + |f.middle|
  }

  function ThirdOf(f: Fields): nat {
    SecondOf(f) + 1 + |f.third|
  }

  lemma SlicesJoined(f: Fields)
    ensures |JoinFields(f)| == ThirdOf(f) + 1 + |f.last|
    ensures FieldsAt(JoinFields(f), Cuts(|f.first|, SecondOf(f), ThirdOf(f))) == f
  {
  }

  /** Cuts that differ from the separators show in the lengths of the fields between them. */
  lemma FieldsAtCuts(f: Fields, line: string, c: Cuts)
    requires c.i1 < c.i2 < c.i3 < |line| && c.i3 == ThirdOf(f)
    requires |line| == ThirdOf(f) + 1 + |f.last| && FieldsAt(line, Cuts(|f.first|, SecondOf(f), ThirdOf(f))) == f
    ensures var s := FieldsAt(line, c);
            && s.last == f.last && |s.first| == c.i1 && |s.third| == c.i3 - c.i2 - 1
            && (c.i1 == |f.first| ==> s.first == f.first)
            && (c.i2 == SecondOf(f) ==> s.third == f.third)
            && (c.i1 == |f.first| && c.i2 == SecondOf(f) ==> s.middle == f.middle)
  {
  }

  /** A last field without a colon comes back; so do the first and third, and then the middle one whatever it holds. */
  lemma SplitJoined(f: Fields)
    requires ':' !in f.last
    ensures var s := SplitFields(JoinFields(f));
            && s.Some? && s.value.last == f.last
            && (if ':' in f.first then |s.value.first| < |f.first| else s.value.first == f.first)
            && (if ':' in f.third then |s.value.third| < |f.third| else s.value.third == f.third)
            && (':' !in f.first && ':' !in f.third ==> s.value.middle == f.middle)
  {
    CutsJoined(f);
    SlicesJoined(f);
    FieldsAtCuts(f, JoinFields(f), CutsOf(JoinFields(f)).value);
  }

  // ----- Decimal integers

  function Digit(d: nat): char
    requires d < 10
  {
    '0' + d as char
  }

  function PrintNat(n: nat): (s: string)
    ensures s != "" && forall c | c in s :: '0' <= c <= '9'
  {
    if n < 10 then [Digit(n)] else PrintNat(n / 10) + [Digit(n % 10)]
  }

  /** `StringBuilder.append(int)`. */
  function PrintInt(n: int): (s: string)
    ensures s != "" && forall c | c in s :: '0' <= c <= '9' || c == '-'
  {
    if n < 0 then "-" + PrintNat(-n) else PrintNat(n)
  }

  function ParseDigits(s: string): Option<nat> {
    if s == "" then Some(0)
    else
      var rest, c := ParseDigits(s[..|s| - 1]), s[|s| - 1];
      if rest.Some? && '0' <= c <= '9' then Some(rest.value * 10 + (c - '0') as nat) else None
  }

  /** `Integer.valueOf`: None for a NumberFormatException. */
  function ParseInt(s: string): Option<Int32> {
    var signed := s != "" && (s[0] == '-' || s[0] == '+');
    var digits := if signed then s[1..] else s;
    var magnitude := ParseDigits(digits);
    if digits == "" || magnitude.None? then None
    else
      var n: int := if signed && s[0] == '-' then -(magnitude.value as int) else magnitude.value;
      if INT_MIN <= n <= INT_MAX then Some(n) else None
  }

  lemma {:induction false} ParsePrintedNat(n: nat)
    ensures ParseDigits(PrintNat(n)) == Some(n)
  {
    var s := PrintNat(n);
    if n >= 10 {
      ParsePrintedNat(n / 10);
      assert s[..|s| - 1] == PrintNat(n / 10);
    } else {
      assert s[..0] == "";
    }
    assert (Digit(n % 10) - '0') as nat == n % 10;
  }

  /** Reading back a printed integer, the extreme ones included. */
  lemma ParsePrintedInt(n: Int32)
    ensures ParseInt(PrintInt(n)) == Some(n)
  {
    var i: int := n;
    if i < 0 {
      ParsePrintedNat(-i);
      ParseNegative(PrintNat(-i), -i);
    } else {
      ParsePrintedNat(i);
      assert PrintNat(i)[0] in PrintNat(i);
      ParseUnsigned(PrintNat(i), i);
    }
  }

  lemma ParseNegative(digits: string, n: nat)
    requires digits != "" && ParseDigits(digits) == Some(n) && INT_MIN <= 0 - n
    ensures ParseInt("-" + digits) == Some(0 - n)
  {
    assert ("-" + digits)[1..] == digits;
  }

  lemma ParseUnsigned(digits: string, n: nat)
    requires digits != "" && '0' <= digits[0] <= '9' && ParseDigits(digits) == Some(n) && n <= INT_MAX
    ensures ParseInt(digits) == Some(n)
  {
  }
}
