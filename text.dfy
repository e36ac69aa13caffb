/**
 * The two library routines the loader relies on, as they behave on the text of one
 * line: `String.split(",")` (pieces between commas, trailing empty pieces dropped)
 * and `Integer.parseInt` (optional sign, decimal digits, 32-bit range), together
 * with the inverses used to state round trips.
 */
module Text {
  import opened Wrappers

  /** The range of a Java `int`. */
  const IntMin: int := -0x8000_0000
  const IntMax: int := 0x7FFF_FFFF

  predicate NoComma(s: string) {
    ',' !in s
  }

  /** Every piece of `s` between commas, empty pieces included. */
  function Pieces(s: string): (r: seq<string>)
    ensures |r| >= 1
  {
    if |s| == 0 then [""]
    else
      var rest := Pieces(s[1..]);
      if s[0] == ',' then [""] + rest
      else [[s[0]] + rest[0]] + rest[1..]
  }

  /** The pieces joined back with commas between them. */
  function Join(parts: seq<string>): string
  {
    if |parts| == 0 then ""
    else if |parts| == 1 then parts[0]
    else parts[0] + "," + Join(parts[1..])
  }

  /** Drops the empty pieces at the end, and only those. */
  function DropTrailingEmpty(parts: seq<string>): seq<string>
  {
    if |parts| > 0 && parts[|parts| - 1] == "" then DropTrailingEmpty(parts[..|parts| - 1])
    else parts
  }

  /** What is kept is a prefix ending in a non-empty piece (or nothing), and what is
      dropped is all empty. */
  lemma {:induction false} DropTrailingEmptyKeeps(parts: seq<string>)
    ensures var r := DropTrailingEmpty(parts);
      && |r| <= |parts| && r == parts[..|r|]
      && (forall k :: |r| <= k < |parts| ==> parts[k] == "")
      && (|r| == 0 || r[|r| - 1] != "")
  {
    if |parts| > 0 && parts[|parts| - 1] == "" {
      var init := parts[..|parts| - 1];
      DropTrailingEmptyKeeps(init);
      var r := DropTrailingEmpty(init);
      assert init[..|r|] == parts[..|r|];
    }
  }

  /** `s.split(",")`: a string without a comma is its own single field (even the empty
      string); otherwise the pieces between commas, without the empty ones at the end. */
  function Split(s: string): seq<string>
  {
    if NoComma(s) then [s] else DropTrailingEmpty(Pieces(s))
  }

  lemma {:induction false} PiecesNoComma(s: string)
    ensures forall k :: 0 <= k < |Pieces(s)| ==> NoComma(Pieces(s)[k])
    decreases |s|
  {
    if |s| > 0 {
      PiecesNoComma(s[1..]);
      var rest := Pieces(s[1..]);
      if s[0] != ',' {
        assert NoComma([s[0]] + rest[0]);
      }
    }
  }

  /** No field of `split` holds a comma. */
  lemma SplitFields(s: string)
    ensures forall k :: 0 <= k < |Split(s)| ==> NoComma(Split(s)[k])
  {
    PiecesNoComma(s);
    DropTrailingEmptyKeeps(Pieces(s));
    if !NoComma(s) {
      var r := DropTrailingEmpty(Pieces(s));
      forall k | 0 <= k < |r| ensures NoComma(r[k]) {
        assert r[k] == Pieces(s)[k];
      }
    }
  }

  lemma {:induction false} JoinPieces(s: string)
    ensures Join(Pieces(s)) == s
    decreases |s|
  {
    if |s| > 0 {
      var rest := Pieces(s[1..]);
      JoinPieces(s[1..]);
      if s[0] != ',' && |rest| > 1 {
        calc {
          Join(Pieces(s));
          ([s[0]] + rest[0]) + "," + Join(rest[1..]);
          [s[0]] + (rest[0] + "," + Join(rest[1..]));
          [s[0]] + s[1..];
        }
      }
    }
  }

  /** Reading the pieces of a piece followed by a comma. */
  lemma {:induction false} PiecesCons(p: string, t: string)
    requires NoComma(p)
    ensures Pieces(p + "," + t) == [p] + Pieces(t)
    ensures Pieces(p) == [p]
    decreases |p|
  {
    if |p| > 0 {
      assert (p + "," + t)[1..] == p[1..] + "," + t;
      assert p == [p[0]] + p[1..];
      PiecesCons(p[1..], t);
    }
  }

  lemma {:induction false} PiecesJoin(parts: seq<string>)
    requires |parts| >= 1
    requires forall k :: 0 <= k < |parts| ==> NoComma(parts[k])
    ensures Pieces(Join(parts)) == parts
    decreases |parts|
  {
    PiecesCons(parts[0], "");
    if |parts| > 1 {
      PiecesJoin(parts[1..]);
      PiecesCons(parts[0], Join(parts[1..]));
    }
  }

  /** Fields without commas whose last one is not empty come back from `split`. */
  lemma SplitJoin(parts: seq<string>)
    requires |parts| >= 1 && parts[|parts| - 1] != ""
    requires forall k :: 0 <= k < |parts| ==> NoComma(parts[k])
    ensures Split(Join(parts)) == parts
  {
    PiecesJoin(parts);
    if |parts| > 1 {
      assert Join(parts)[|parts[0]|] == ',';
    }
  }

  predicate IsDigit(c: char) {
    '0' <= c <= '9'
  }

  predicate AllDigits(s: string) {
    forall i :: 0 <= i < |s| ==> IsDigit(s[i])
  }

  /** The value of a string of decimal digits, the last digit the least significant. */
  function DigitsValue(s: string): (v: nat)
    requires AllDigits(s)
  {
    if |s| == 0 then 0
    else DigitsValue(s[..|s| - 1]) * 10 + (s[|s| - 1] as int - '0' as int)
  }

  /** `Integer.parseInt(s)`: an optional '+' or '-', then at least one decimal digit,
      and a value that fits in an `int`; anything else is a NumberFormatException. */
  function ParseInt(s: string): (r: Option<int>)
    ensures r.Some? ==> IntMin <= r.value <= IntMax
  {
    if |s| == 0 then None
    else
      var digits := if s[0] == '-' || s[0] == '+' then s[1..] else s;
      if |digits| == 0 || !AllDigits(digits) then None
      else
        var v: int := if s[0] == '-' then -(DigitsValue(digits) as int) else DigitsValue(digits);
        if IntMin <= v <= IntMax then Some(v) else None
  }

  function Digit(d: nat): (c: char)
    requires d < 10
    ensures IsDigit(c)
  {
    ('0' as int + d) as char
  }

  function ShowNat(n: nat): (s: string)
  {
    if n < 10 then [Digit(n)] else ShowNat(n / 10) + [Digit(n % 10)]
  }

  /** The decimal text of `n`, as `Integer.toString` writes it. */
  function Show(n: int): (s: string)
  {
    if n < 0 then "-" + ShowNat(-n) else ShowNat(n)
  }

  lemma {:induction false} ShowNatDigits(n: nat)
    ensures |ShowNat(n)| >= 1 && AllDigits(ShowNat(n))
    ensures DigitsValue(ShowNat(n)) == n
  {
    if n >= 10 {
      ShowNatDigits(n / 10);
      var s := ShowNat(n);
      assert s[..|s| - 1] == ShowNat(n / 10);
    }
  }

  lemma DigitsNoComma(s: string)
    requires AllDigits(s)
    ensures NoComma(s)
  {
    forall i | 0 <= i < |s| ensures s[i] != ',' {
      assert IsDigit(s[i]);
    }
  }

  /** The text of an `int` parses back to it, and holds no comma. */
  lemma ParseShow(n: int)
    requires IntMin <= n <= IntMax
    ensures ParseInt(Show(n)) == Some(n)
    ensures NoComma(Show(n)) && Show(n) != ""
  {
    var s := Show(n);
    if n < 0 {
      var digits := ShowNat(-n);
      ShowNatDigits(-n);
      DigitsNoComma(digits);
      assert s == "-" + digits && s[1..] == digits;
      assert s[0] == '-';
      assert DigitsValue(digits) == -n;
      assert ',' !in s by {
        assert forall i :: 0 <= i < |s| ==> s[i] == '-' || s[i] in digits;
      }
    } else {
      ShowNatDigits(n);
      DigitsNoComma(s);
      assert IsDigit(s[0]);
      assert s[0] != '-' && s[0] != '+';
    }
  }

  /** A character other than a digit, anywhere but a leading sign, is refused. */
  lemma ParseIntRejectsNonDigit(s: string, i: nat)
    requires i < |s| && !IsDigit(s[i])
    requires i > 0 || (s[0] != '-' && s[0] != '+')
    ensures ParseInt(s) == None
  {
    if s[0] == '-' || s[0] == '+' {
      assert !IsDigit(s[1..][i - 1]);
    } else {
      assert !IsDigit(s[i]);
    }
  }

  /** Digits alone, or after '+', give their decimal value (leading zeros included);
      after '-', its negation; either only if it fits in an `int`. */
  lemma ParseIntDigits(d: string)
    requires |d| >= 1 && AllDigits(d)
    ensures ParseInt(d) == if DigitsValue(d) <= IntMax then Some(DigitsValue(d)) else None
    ensures ParseInt("+" + d) == ParseInt(d)
    ensures ParseInt("-" + d) == if DigitsValue(d) <= -IntMin then Some(-(DigitsValue(d) as int)) else None
  {
    assert IsDigit(d[0]);
    assert ("+" + d)[1..] == d;
    assert ("-" + d)[1..] == d;
  }

  /** Examples at the edges: empty text and a lone sign are refused, a sign before digits
      is read, and a trailing blank is refused. */
  lemma ParseIntSigns()
    ensures ParseInt("") == None && ParseInt("-") == None && ParseInt("+") == None
    ensures ParseInt("+7") == Some(7) && ParseInt("-0") == Some(0) && ParseInt("1 ") == None
  {
    assert "+7"[1..] == "7";
    assert "-0"[1..] == "0";
  }

  lemma DigitsValueOfMax()
    ensures AllDigits("214748364") && DigitsValue("214748364") == 214748364
  {
    assert "214748364"[..8] == "21474836";
    assert "21474836"[..7] == "2147483";
    assert "2147483"[..6] == "214748";
    assert "214748"[..5] == "21474";
    assert "21474"[..4] == "2147";
    assert "2147"[..3] == "214";
    assert "214"[..2] == "21";
    assert "21"[..1] == "2";
  }

  /** The largest and smallest `int` parse, one step beyond them does not. */
  lemma ParseIntRange()
    ensures ParseInt("2147483647") == Some(IntMax) && ParseInt("2147483648") == None
    ensures ParseInt("-2147483648") == Some(IntMin) && ParseInt("-2147483649") == None
  {
    DigitsValueOfMax();
    assert "2147483647"[..9] == "214748364";
    assert "2147483648"[..9] == "214748364";
    assert "2147483649"[..9] == "214748364";
    assert "-2147483648"[1..] == "2147483648";
    assert "-2147483649"[1..] == "2147483649";
  }
}
