/**
  Document keys of the AVL store: the normalisation and range check that the
  AVL `Node` performs when it is built (`__post_init__`), and the string-to-int
  conversion that `AVLTree.insert`, `search` and `delete` apply to string keys.
*/
module Documents {
  import opened Wrappers

  /** Smallest and largest document a node accepts (at most six digits). */
  const MinDocument := 0
  const MaxDocument := 999999

  predicate InRange(k: int) {
    MinDocument <= k <= MaxDocument
  }

  /** A key as a caller hands it to the tree API, typed `int | str`. */
  datatype KeyArg = IntKey(n: int) | StrKey(s: string)

  /** A document value as the node constructor receives it: an int, a str, or anything else. */
  datatype DocArg = IntDoc(n: int) | StrDoc(s: string) | OtherDoc

  /** Why a node refuses a document. */
  datatype DocError =
    | NotConvertible  // ValueError: a string that is not an integer literal
    | NotIntOrStr     // TypeError: neither int nor str
    | OutOfRange      // ValueError: outside 0..999999

  predicate IsDigit(c: char) {
    '0' <= c <= '9'
  }

  predicate AllDigits(s: string) {
    forall i :: 0 <= i < |s| ==> IsDigit(s[i])
  }

  function DigitValue(c: char): nat
    requires IsDigit(c)
  {
    c as int - '0' as int
  }

  function DigitChar(d: nat): char
    requires d < 10
  {
    ('0' as int + d) as char
  }

  /** Value of a string of decimal digits, most significant first. */
  function DigitsValue(s: string): nat
    requires AllDigits(s)
  {
    if s == [] then 0 else DigitsValue(s[..|s| - 1]) * 10 + DigitValue(s[|s| - 1])
  }

  /** Decimal digits of `n`, without leading zeros. */
  function ShowNat(n: nat): (s: string)
    ensures s != [] && AllDigits(s)
  {
    if n < 10 then [DigitChar(n)] else ShowNat(n / 10) + [DigitChar(n % 10)]
  }

  /**
    Python's `int(s)` on a string: an optional sign followed by one or more
    decimal digits; anything else is not convertible.
  */
  function ParseInt(s: string): (r: Option<int>)
    ensures r.Some? <==> (s != [] && (AllDigits(s) || ((s[0] == '-' || s[0] == '+') && |s| > 1 && AllDigits(s[1..]))))
  {
    if s == [] then None
    else if AllDigits(s) then Some(DigitsValue(s))
    else if (s[0] == '-' || s[0] == '+') && |s| > 1 && AllDigits(s[1..]) then
      Some(if s[0] == '-' then -(DigitsValue(s[1..]) as int) else DigitsValue(s[1..]))
    else None
  }

  /** The conversion `AVLTree.insert`, `search` and `delete` apply before descending. */
  function KeyOf(arg: KeyArg): Option<int> {
    match arg
    case IntKey(n) => Some(n)
    case StrKey(s) => ParseInt(s)
  }

  /**
    What the AVL node's `__post_init__` does with a document: a string is
    converted (or refused), any other non-int is refused, and the result must
    lie in 0..999999.
  */
  function NormalizeDocument(doc: DocArg): (r: Result<int, DocError>)
    ensures r.Ok? ==> InRange(r.value)
    ensures doc.IntDoc? ==> (r.Ok? <==> InRange(doc.n)) && (r.Ok? ==> r.value == doc.n)
    ensures doc.OtherDoc? ==> r == Err(NotIntOrStr)
    ensures doc.StrDoc? && ParseInt(doc.s).None? ==> r == Err(NotConvertible)
    ensures doc.StrDoc? && ParseInt(doc.s).Some? ==>
              r == (if InRange(ParseInt(doc.s).value) then Ok(ParseInt(doc.s).value) else Err(OutOfRange))
  {
    var converted :=
      match doc
      case IntDoc(n) => Ok(n)
      case StrDoc(s) => if ParseInt(s).Some? then Ok(ParseInt(s).value) else Err(NotConvertible)
      case OtherDoc => Err(NotIntOrStr);
    if converted.Err? then converted
    else if !InRange(converted.value) then Err(OutOfRange)
    else converted
  }

  lemma {:induction false} ShowNatRoundTrip(n: nat)
    ensures DigitsValue(ShowNat(n)) == n
  {
    if n >= 10 {
      var s := ShowNat(n / 10) + [DigitChar(n % 10)];
      assert s[..|s| - 1] == ShowNat(n / 10);
      ShowNatRoundTrip(n / 10);
    }
  }

  /** Leading zeros do not change the value of a digit string. */
  lemma {:induction false} LeadingZeroIgnored(s: string)
    requires AllDigits(s)
    ensures AllDigits("0" + s) && DigitsValue("0" + s) == DigitsValue(s)
  {
    if s != [] {
      var t := "0" + s;
      assert t[..|t| - 1] == "0" + s[..|s| - 1];
      LeadingZeroIgnored(s[..|s| - 1]);
    }
  }

  /** Every document in range, written out in decimal (with any number of leading zeros), normalises back to itself. */
  lemma {:induction false} NormalizeShownDocument(n: nat, zeros: nat)
    requires InRange(n)
    ensures NormalizeDocument(StrDoc(Zeros(zeros) + ShowNat(n))) == Ok(n)
  {
    ZerosThenDigits(zeros, ShowNat(n));
    ShowNatRoundTrip(n);
  }

  function Zeros(k: nat): (s: string)
    ensures |s| == k && AllDigits(s)
  {
    if k == 0 then [] else "0" + Zeros(k - 1)
  }

  lemma {:induction false} ZerosThenDigits(k: nat, s: string)
    requires AllDigits(s)
    ensures AllDigits(Zeros(k) + s) && DigitsValue(Zeros(k) + s) == DigitsValue(s)
  {
    if k == 0 {
      assert Zeros(k) + s == s;
    } else {
      ZerosThenDigits(k - 1, s);
      var rest := Zeros(k - 1) + s;
      assert Zeros(k) + s == "0" + rest;
      LeadingZeroIgnored(rest);
      assert DigitsValue("0" + rest) == DigitsValue(s);
    }
  }

  /** A digit character is the character of its own value. */
  lemma DigitRoundTrip(c: char)
    requires IsDigit(c)
    ensures DigitChar(DigitValue(c)) == c
  {
  }

  lemma {:induction false} ZerosThenZero(k: nat)
    ensures Zeros(k) + "0" == Zeros(k + 1)
  {
    if k > 0 {
      ZerosThenZero(k - 1);
      assert Zeros(k) + "0" == "0" + (Zeros(k - 1) + "0");
    }
  }

  /** Appending a digit to the spelling of a positive number spells ten times it plus the digit. */
  lemma ShowNatStep(m: nat, c: char)
    requires m > 0 && IsDigit(c)
    ensures ShowNat(m * 10 + DigitValue(c)) == ShowNat(m) + [c]
  {
    var n := m * 10 + DigitValue(c);
    assert n / 10 == m && n % 10 == DigitValue(c);
    DigitRoundTrip(c);
  }

  /** A zero-valued prefix is all zeros, so one more digit spells that digit behind them. */
  lemma AppendToZeros(s: string, k: nat)
    requires s != [] && AllDigits(s) && s[..|s| - 1] == Zeros(k) + ShowNat(0)
    ensures s == Zeros(k + 1) + ShowNat(DigitValue(s[|s| - 1]))
  {
    var c := s[|s| - 1];
    assert s == s[..|s| - 1] + [c];
    ZerosThenZero(k);
    DigitRoundTrip(c);
  }

  /** One more digit behind the spelling of a positive number spells the longer number. */
  lemma AppendToShown(p: string, c: char, k: nat, m: nat)
    requires m > 0 && IsDigit(c) && p == Zeros(k) + ShowNat(m)
    ensures p + [c] == Zeros(k) + ShowNat(m * 10 + DigitValue(c))
  {
    ShowNatStep(m, c);
  }

  /** Every non-empty digit string is some leading zeros followed by the decimal spelling of its value. */
  lemma {:induction false} DigitsAreZerosThenShown(s: string)
    requires s != [] && AllDigits(s)
    ensures exists k: nat :: s == Zeros(k) + ShowNat(DigitsValue(s))
  {
    var p, c := s[..|s| - 1], s[|s| - 1];
    assert s == p + [c];
    if p == [] {
      DigitRoundTrip(c);
      assert s == Zeros(0) + ShowNat(DigitsValue(s));
    } else {
      DigitsAreZerosThenShown(p);
      var k: nat :| p == Zeros(k) + ShowNat(DigitsValue(p));
      var m := DigitsValue(p);
      assert DigitsValue(s) == m * 10 + DigitValue(c);
      if m == 0 {
        AppendToZeros(s, k);
        assert DigitsValue(s) == DigitValue(c);
        assert s == Zeros(k + 1) + ShowNat(DigitsValue(s));
      } else {
        AppendToShown(p, c, k, m);
        assert s == Zeros(k) + ShowNat(DigitsValue(s));
      }
    }
  }

  /**
    `s` is the way `int()` accepts a spelling of `v`: leading zeros and the
    decimal digits of its magnitude, with an optional `+` when `v` is not
    negative and a `-` when it is not positive (so "-0" spells 0).
  */
  ghost predicate Spells(s: string, v: int) {
    exists k: nat ::
      (v >= 0 && (s == Zeros(k) + ShowNat(v) || s == "+" + (Zeros(k) + ShowNat(v)))) ||
      (v <= 0 && s == "-" + (Zeros(k) + ShowNat(-v)))
  }

  /** A digit string, bare or behind one sign, converts to its signed value. */
  lemma ParseDigits(d: string)
    requires d != [] && AllDigits(d)
    ensures ParseInt(d) == Some(DigitsValue(d) as int)
    ensures ParseInt("+" + d) == Some(DigitsValue(d) as int)
    ensures ParseInt("-" + d) == Some(-(DigitsValue(d) as int))
  {
    assert ("+" + d)[1..] == d && ("-" + d)[1..] == d;
    assert !IsDigit(("+" + d)[0]) && !IsDigit(("-" + d)[0]);
  }

  /** A spelled number converts to that number. */
  lemma ParseShown(n: nat, zeros: nat)
    ensures ParseInt(Zeros(zeros) + ShowNat(n)) == Some(n as int)
  {
    ShownValue(n, zeros);
    ParseDigits(Zeros(zeros) + ShowNat(n));
  }

  /** Behind a `+` it converts to the same number. */
  lemma ParseShownPlus(n: nat, zeros: nat)
    ensures ParseInt("+" + (Zeros(zeros) + ShowNat(n))) == Some(n as int)
  {
    var digits := Zeros(zeros) + ShowNat(n);
    ShownValue(n, zeros);
    ParseDigits(digits);
  }

  /** Behind a `-` it converts to the negated number. */
  lemma ParseShownMinus(n: nat, zeros: nat)
    ensures ParseInt("-" + (Zeros(zeros) + ShowNat(n))) == Some(-(n as int))
  {
    var digits := Zeros(zeros) + ShowNat(n);
    ShownValue(n, zeros);
    ParseDigits(digits);
  }

  lemma ShownValue(n: nat, zeros: nat)
    ensures var digits := Zeros(zeros) + ShowNat(n);
            digits != [] && AllDigits(digits) && DigitsValue(digits) == n
  {
    ZerosThenDigits(zeros, ShowNat(n));
    ShowNatRoundTrip(n);
  }

  /** A converted string spells the value it converts to. */
  lemma ParsedSpells(s: string, v: int)
    requires ParseInt(s) == Some(v)
    ensures Spells(s, v)
  {
    if AllDigits(s) {
      DigitsAreZerosThenShown(s);
      var k: nat :| s == Zeros(k) + ShowNat(DigitsValue(s));
      assert v >= 0 && s == Zeros(k) + ShowNat(v);
    } else {
      var d := s[1..];
      assert s == [s[0]] + d;
      DigitsAreZerosThenShown(d);
      var k: nat :| d == Zeros(k) + ShowNat(DigitsValue(d));
      if s[0] == '-' {
        assert v <= 0 && s == "-" + (Zeros(k) + ShowNat(-v));
      } else {
        assert v >= 0 && s == "+" + (Zeros(k) + ShowNat(v));
      }
    }
  }

  /** A spelling of `v` converts to `v`. */
  lemma SpellingParses(s: string, v: int)
    requires Spells(s, v)
    ensures ParseInt(s) == Some(v)
  {
    var k: nat :|
      (v >= 0 && (s == Zeros(k) + ShowNat(v) || s == "+" + (Zeros(k) + ShowNat(v)))) ||
      (v <= 0 && s == "-" + (Zeros(k) + ShowNat(-v)));
    if v >= 0 {
      ParseShown(v, k);
      ParseShownPlus(v, k);
    }
    if v <= 0 {
      ParseShownMinus(-v, k);
    }
  }

  /** `int(s)` gives `v` exactly when `s` spells `v`. */
  lemma ParseIntIsSpelling(s: string, v: int)
    ensures ParseInt(s) == Some(v) <==> Spells(s, v)
  {
    if ParseInt(s) == Some(v) {
      ParsedSpells(s, v);
    }
    if Spells(s, v) {
      SpellingParses(s, v);
    }
  }

  /** Signed strings: "-0" is document 0, "+7" is 7, and "-5" converts but lies out of range. */
  lemma SignedExamples()
    ensures ParseInt("-0") == Some(0) && NormalizeDocument(StrDoc("-0")) == Ok(0)
    ensures ParseInt("+7") == Some(7) && NormalizeDocument(StrDoc("+7")) == Ok(7)
    ensures ParseInt("-5") == Some(-5) && NormalizeDocument(StrDoc("-5")) == Err(OutOfRange)
    ensures ParseInt("-") == None && ParseInt("+-1") == None
  {
    ParseShownMinus(0, 0);
    ParseShownPlus(7, 0);
    ParseShownMinus(5, 0);
    assert "-" + (Zeros(0) + ShowNat(0)) == "-0";
    assert "+" + (Zeros(0) + ShowNat(7)) == "+7";
    assert "-" + (Zeros(0) + ShowNat(5)) == "-5";
    assert !IsDigit("-"[0]) && !IsDigit("+-1"[0]) && !IsDigit("+-1"[1..][0]);
  }

  /** The digit strings used by the examples below, with their values. */
  lemma LiteralDigits()
    ensures AllDigits("00123") && DigitsValue("00123") == 123
    ensures AllDigits("12345") && DigitsValue("12345") == 12345
  {
    assert "00123"[..4] == "0012";
    assert "0012"[..3] == "001";
    assert "001"[..2] == "00";
    assert "00"[..1] == "0";
    assert "12345"[..4] == "1234";
    assert "1234"[..3] == "123";
    assert "123"[..2] == "12";
    assert "12"[..1] == "1";
  }

  /** The concrete cases the node's behaviour is pinned down by. */
  lemma NormalizeExamples()
    ensures NormalizeDocument(StrDoc("00123")) == Ok(123)
    ensures NormalizeDocument(StrDoc("12345")) == Ok(12345)
    ensures NormalizeDocument(StrDoc("abc123")) == Err(NotConvertible)
    ensures NormalizeDocument(IntDoc(0)) == Ok(0)
    ensures NormalizeDocument(IntDoc(999999)) == Ok(999999)
    ensures NormalizeDocument(IntDoc(1000000)) == Err(OutOfRange)
    ensures NormalizeDocument(IntDoc(-1)) == Err(OutOfRange)
    ensures NormalizeDocument(OtherDoc) == Err(NotIntOrStr)
  {
    LiteralDigits();
    assert !IsDigit("abc123"[0]);
  }
}
